/** Python string operations the scripts rely on: `str.strip()`,
    `str.split()`, `sep.join(...)`, one-character `str.replace`, and the
    code-point ordering `sorted` uses on names. */
module Text {

  /** The characters Python's `str.isspace()` accepts; `str.split()` and
      `str.strip()` without arguments remove exactly these. */
  predicate IsSpace(c: char) {
    || ('\t' <= c <= '\r')
    || ('\U{1c}' <= c <= '\U{1f}')
    || c == ' '
    || c == '\U{85}'
    || c == '\U{a0}'
    || c == '\U{1680}'
    || ('\U{2000}' <= c <= '\U{200a}')
    || c == '\U{2028}'
    || c == '\U{2029}'
    || c == '\U{202f}'
    || c == '\U{205f}'
    || c == '\U{3000}'
  }

  predicate NoSpace(s: string) {
    forall k :: 0 <= k < |s| ==> !IsSpace(s[k])
  }

  predicate AllSpace(s: string) {
    forall k :: 0 <= k < |s| ==> IsSpace(s[k])
  }

  /** A token `str.split()` can produce: non-empty and free of whitespace. */
  predicate IsWord(w: string) {
    |w| > 0 && NoSpace(w)
  }

  /** First index at or after `i` that holds no whitespace (`|s|` if none). */
  function SkipSpaces(s: string, i: nat): (j: nat)
    requires i <= |s|
    ensures i <= j <= |s|
    ensures forall k {:trigger IsSpace(s[k])} :: i <= k < j ==> IsSpace(s[k])
    ensures j < |s| ==> !IsSpace(s[j])
    decreases |s| - i
  {
    if i < |s| && IsSpace(s[i]) then SkipSpaces(s, i + 1) else i
  }

  /** First index at or after `i` that holds whitespace (`|s|` if none). */
  function WordEnd(s: string, i: nat): (j: nat)
    requires i <= |s|
    ensures i <= j <= |s|
    ensures forall k {:trigger IsSpace(s[k])} :: i <= k < j ==> !IsSpace(s[k])
    ensures j < |s| ==> IsSpace(s[j])
    decreases |s| - i
  {
    if i < |s| && !IsSpace(s[i]) then WordEnd(s, i + 1) else i
  }

  /** Last index at or before `j` such that everything from it up to `j`
      is whitespace and the character before it is not. */
  function TrimEnd(s: string, j: nat): (i: nat)
    requires j <= |s|
    ensures i <= j
    ensures forall k :: i <= k < j ==> IsSpace(s[k])
    ensures i > 0 ==> !IsSpace(s[i - 1])
    decreases j
  {
    if j > 0 && IsSpace(s[j - 1]) then TrimEnd(s, j - 1) else j
  }

  /** `s.strip()`: the part of `s` between its leading and trailing
      whitespace runs. */
  function Strip(s: string): string {
    var a := SkipSpaces(s, 0);
    if a == |s| then "" else s[a..TrimEnd(s, |s|)]
  }

  /** Stripping leaves nothing exactly when `s` is all whitespace. */
  lemma StripEmpty(s: string)
    ensures AllSpace(s) <==> Strip(s) == ""
  {
    var a := SkipSpaces(s, 0);
    if a < |s| {
      assert !IsSpace(s[a]);
      assert a < TrimEnd(s, |s|);
    }
  }

  lemma AllSpaceBetween(s: string, i: nat, j: nat)
    requires i <= j <= |s| && forall k :: i <= k < j ==> IsSpace(s[k])
    ensures AllSpace(s[i..j])
  {
    assert forall k :: 0 <= k < j - i ==> s[i..j][k] == s[i + k];
  }

  /** A non-empty result starts and ends with non-whitespace and is a
      slice of `s` with only whitespace around it. */
  lemma StripSpec(s: string)
    requires !AllSpace(s)
    ensures Strip(s) != ""
    ensures !IsSpace(Strip(s)[0]) && !IsSpace(Strip(s)[|Strip(s)| - 1])
    ensures exists i :: 0 <= i <= |s| - |Strip(s)| && s[i..i + |Strip(s)|] == Strip(s)
                        && AllSpace(s[..i]) && AllSpace(s[i + |Strip(s)|..])
  {
    StripEnds(s);
    StripSlice(s);
  }

  lemma StripEnds(s: string)
    requires !AllSpace(s)
    ensures Strip(s) != ""
    ensures !IsSpace(Strip(s)[0]) && !IsSpace(Strip(s)[|Strip(s)| - 1])
  {
    StripEmpty(s);
    var a := SkipSpaces(s, 0);
    var b := TrimEnd(s, |s|);
    assert a < |s| && !IsSpace(s[a]);
    assert a < b && !IsSpace(s[b - 1]);
    var r := s[a..b];
    assert r == Strip(s);
    assert r[0] == s[a] && r[|r| - 1] == s[b - 1];
  }

  lemma StripSlice(s: string)
    requires !AllSpace(s)
    ensures exists i :: 0 <= i <= |s| - |Strip(s)| && s[i..i + |Strip(s)|] == Strip(s)
                        && AllSpace(s[..i]) && AllSpace(s[i + |Strip(s)|..])
  {
    StripEmpty(s);
    var a := SkipSpaces(s, 0);
    var b := TrimEnd(s, |s|);
    assert a < b;
    var r := s[a..b];
    assert r == Strip(s);
    AllSpaceBetween(s, 0, a);
    AllSpaceBetween(s, b, |s|);
    assert s[0..a] == s[..a] && s[b..|s|] == s[b..];
    assert a + |r| == b && s[a..a + |r|] == r;
  }

  /** Text that neither starts nor ends with whitespace is left alone. */
  lemma StripNoop(s: string)
    requires |s| > 0 && !IsSpace(s[0]) && !IsSpace(s[|s| - 1])
    ensures Strip(s) == s
  {
    assert SkipSpaces(s, 0) == 0;
    assert TrimEnd(s, |s|) == |s|;
  }

  /** Stripping removes trailing whitespace (a line's `\n`, say) after a
      string that already has non-whitespace ends. */
  lemma StripTrailing(s: string, t: string)
    requires |s| > 0 && !IsSpace(s[0]) && !IsSpace(s[|s| - 1])
    requires AllSpace(t)
    ensures Strip(s + t) == s
  {
    var u := s + t;
    assert u[0] == s[0] && u[|s| - 1] == s[|s| - 1];
    assert forall k :: |s| <= k < |u| ==> u[k] == t[k - |s|];
    assert u[..|s|] == s;
  }

  /** Tokens of `s[i..]`, as `str.split()` finds them. */
  function SplitFrom(s: string, i: nat): seq<string>
    requires i <= |s|
    decreases |s| - i
  {
    var a := SkipSpaces(s, i);
    if a == |s| then []
    else
      var b := WordEnd(s, a);
      [s[a..b]] + SplitFrom(s, b)
  }

  /** Every token is a word, and there are none exactly when the rest of
      `s` is whitespace. */
  lemma {:induction false} SplitFromSpec(s: string, i: nat)
    requires i <= |s|
    ensures forall k :: 0 <= k < |SplitFrom(s, i)| ==> IsWord(SplitFrom(s, i)[k])
    ensures (forall k :: i <= k < |s| ==> IsSpace(s[k])) <==> SplitFrom(s, i) == []
    decreases |s| - i
  {
    var a := SkipSpaces(s, i);
    if a < |s| {
      var b := WordEnd(s, a);
      SplitFromSpec(s, b);
      var w := s[a..b];
      assert forall k :: 0 <= k < |w| ==> w[k] == s[a + k];
      assert IsWord(w);
    }
  }

  /** `s.split()` with no argument: the maximal whitespace-free runs of
      `s`, in order. */
  function SplitWs(s: string): (r: seq<string>)
    ensures forall k :: 0 <= k < |r| ==> IsWord(r[k])
    ensures AllSpace(s) <==> r == []
  {
    SplitFromSpec(s, 0);
    SplitFrom(s, 0)
  }

  /** Whitespace runs that can surround and separate tokens: the outer two
      may be empty, the ones between tokens may not. */
  predicate Separators(gaps: seq<string>) {
    forall k :: 0 <= k < |gaps| ==> AllSpace(gaps[k]) && (0 < k < |gaps| - 1 ==> gaps[k] != "")
  }

  predicate Words(ws: seq<string>) {
    forall k :: 0 <= k < |ws| ==> IsWord(ws[k])
  }

  /** `gaps[0] + ws[0] + gaps[1] + ... + ws[n - 1] + gaps[n]`. */
  function Weave(gaps: seq<string>, ws: seq<string>): string
    requires |gaps| == |ws| + 1
    decreases |ws|
  {
    if |ws| == 0 then gaps[0] else gaps[0] + ws[0] + Weave(gaps[1..], ws[1..])
  }

  /** The first non-whitespace index is pinned down by where the
      whitespace stops. */
  lemma SkipSpacesAt(s: string, i: nat, a: nat)
    requires i <= a <= |s|
    requires forall k :: i <= k < a ==> IsSpace(s[k])
    requires a < |s| ==> !IsSpace(s[a])
    ensures SkipSpaces(s, i) == a
  {
  }

  /** The end of a word is pinned down by where its characters stop. */
  lemma WordEndAt(s: string, a: nat, b: nat)
    requires a <= b <= |s|
    requires forall k :: a <= k < b ==> !IsSpace(s[k])
    requires b < |s| ==> IsSpace(s[b])
    ensures WordEnd(s, a) == b
  {
  }

  /** Where the three parts of `s[i..] == g + w + t` sit in `s`. */
  lemma ConcatAt(s: string, i: nat, g: string, w: string, t: string)
    requires i <= |s| && s[i..] == g + w + t
    ensures i + |g| + |w| <= |s|
    ensures forall k :: i <= k < i + |g| ==> s[k] == g[k - i]
    ensures forall k :: i + |g| <= k < i + |g| + |w| ==> s[k] == w[k - i - |g|]
    ensures s[i + |g|..i + |g| + |w|] == w && s[i + |g| + |w|..] == t
  {
    assert forall k :: i <= k < |s| ==> s[k] == s[i..][k - i];
    assert s[i + |g|..i + |g| + |w|] == s[i..][|g|..|g| + |w|];
    assert s[i + |g| + |w|..] == s[i..][|g| + |w|..];
  }

  /** Dropping the first gap and token keeps the rest a weave of words and
      separators. */
  lemma WeaveTail(gaps: seq<string>, ws: seq<string>)
    requires |gaps| == |ws| + 1 && |ws| > 0 && Separators(gaps) && Words(ws)
    ensures Separators(gaps[1..]) && Words(ws[1..])
    ensures |ws| > 1 ==> gaps[1] != ""
  {
    assert forall k :: 0 <= k < |gaps| - 1 ==> gaps[1..][k] == gaps[k + 1];
    assert forall k :: 0 <= k < |ws| - 1 ==> ws[1..][k] == ws[k + 1];
  }

  /** Prefixing a whitespace run to separators that start with a non-empty
      gap (or have no inner gap) gives separators. */
  lemma SeparatorsCons(g: string, rest: seq<string>)
    requires AllSpace(g) && |rest| > 0 && Separators(rest)
    requires |rest| > 1 ==> rest[0] != ""
    ensures Separators([g] + rest)
  {
    var gaps := [g] + rest;
    forall k | 0 < k < |gaps| ensures gaps[k] == rest[k - 1] { }
  }

  /** One step of splitting: the token that starts where the whitespace
      stops, then the tokens after it. */
  lemma SplitFromUnfold(s: string, i: nat)
    requires i <= |s| && SkipSpaces(s, i) < |s|
    ensures SplitFrom(s, i) == [s[SkipSpaces(s, i)..WordEnd(s, SkipSpaces(s, i))]] + SplitFrom(s, WordEnd(s, SkipSpaces(s, i)))
  {
  }

  /** A gap before the first token; the gaps between later tokens are
      separators that start with the (non-empty) whitespace after it. */
  lemma GapsCons(s: string, i: nat, rest: seq<string>)
    requires i <= |s| && SkipSpaces(s, i) < |s|
    requires var b := WordEnd(s, SkipSpaces(s, i));
             && |rest| == |SplitFrom(s, b)| + 1 && Separators(rest)
             && s[b..] == Weave(rest, SplitFrom(s, b)) && rest[0] == s[b..SkipSpaces(s, b)]
    ensures var gaps := [s[i..SkipSpaces(s, i)]] + rest;
            && |gaps| == |SplitFrom(s, i)| + 1 && Separators(gaps)
            && s[i..] == Weave(gaps, SplitFrom(s, i))
  {
    var a := SkipSpaces(s, i);
    var b := WordEnd(s, a);
    var ws := SplitFrom(s, b);
    var gaps := [s[i..a]] + rest;
    AllSpaceBetween(s, i, a);
    SplitFromUnfold(s, i);
    GapsWeave(s[i..a], s[a..b], rest, ws);
    SliceThree(s, i, a, b);
    GapAfterWord(s, a);
    SeparatorsCons(s[i..a], rest);
  }

  lemma SliceThree(s: string, i: nat, a: nat, b: nat)
    requires i <= a <= b <= |s|
    ensures s[i..] == s[i..a] + s[a..b] + s[b..]
  {
  }

  /** After a word, tokens can only follow a non-empty whitespace run. */
  lemma GapAfterWord(s: string, a: nat)
    requires a <= |s|
    ensures var b := WordEnd(s, a); SplitFrom(s, b) != [] ==> SkipSpaces(s, b) > b
  {
    var b := WordEnd(s, a);
    if SplitFrom(s, b) != [] {
      assert SkipSpaces(s, b) < |s|;
      assert IsSpace(s[b]);
    }
  }

  /** Weaving a leading gap and token in front of a weave. */
  lemma GapsWeave(g: string, w: string, rest: seq<string>, ws: seq<string>)
    requires |rest| == |ws| + 1
    ensures Weave([g] + rest, [w] + ws) == g + w + Weave(rest, ws)
  {
    assert ([g] + rest)[1..] == rest && ([w] + ws)[1..] == ws;
  }

  /** The tokens found from `i` on, woven with the whitespace around them,
      give back the rest of `s`. */
  lemma {:induction false} SplitFromGaps(s: string, i: nat) returns (gaps: seq<string>)
    requires i <= |s|
    ensures |gaps| == |SplitFrom(s, i)| + 1 && Separators(gaps)
    ensures s[i..] == Weave(gaps, SplitFrom(s, i))
    ensures gaps[0] == s[i..SkipSpaces(s, i)]
    decreases |s| - i
  {
    var a := SkipSpaces(s, i);
    if a == |s| {
      AllSpaceBetween(s, i, a);
      gaps := [s[i..]];
    } else {
      var rest := SplitFromGaps(s, WordEnd(s, a));
      GapsCons(s, i, rest);
      gaps := [s[i..a]] + rest;
    }
  }

  /** The start of a weave: its first gap, or all of it when there is no
      token. */
  lemma WeaveHead(gaps: seq<string>, ws: seq<string>)
    requires |gaps| == |ws| + 1
    ensures |ws| == 0 ==> Weave(gaps, ws) == gaps[0]
    ensures |ws| > 0 ==> Weave(gaps, ws) == gaps[0] + ws[0] + Weave(gaps[1..], ws[1..])
    ensures gaps[0] != "" ==> |Weave(gaps, ws)| > 0 && Weave(gaps, ws)[0] == gaps[0][0]
  {
  }

  /** Where the first gap and token of a weave sit in `s`: whitespace,
      then a word, then whitespace or the end. */
  lemma WeavePositions(s: string, i: nat, gaps: seq<string>, ws: seq<string>)
    requires i <= |s| && |gaps| == |ws| + 1 && |ws| > 0 && Separators(gaps) && Words(ws)
    requires s[i..] == Weave(gaps, ws)
    ensures var a := i + |gaps[0]|; var b := a + |ws[0]|;
            && b <= |s| && s[a..b] == ws[0] && s[b..] == Weave(gaps[1..], ws[1..])
            && (forall k :: i <= k < a ==> IsSpace(s[k]))
            && (forall k :: a <= k < b ==> !IsSpace(s[k]))
            && (b < |s| ==> IsSpace(s[b]))
  {
    var g := gaps[0];
    var w := ws[0];
    var t := Weave(gaps[1..], ws[1..]);
    var b := i + |g| + |w|;
    WeaveHead(gaps, ws);
    ConcatAt(s, i, g, w, t);
    WeaveTail(gaps, ws);
    WeaveHead(gaps[1..], ws[1..]);
    if b < |s| {
      assert t != "" && gaps[1] != "";
      assert s[b] == t[0] == gaps[1][0];
    }
  }

  /** Splitting a weave takes its first token and goes on after it. */
  lemma WeaveStep(s: string, i: nat, b: nat, gaps: seq<string>, ws: seq<string>)
    requires i <= |s| && |gaps| == |ws| + 1 && |ws| > 0 && Separators(gaps) && Words(ws)
    requires s[i..] == Weave(gaps, ws) && b == i + |gaps[0]| + |ws[0]|
    ensures b <= |s| && s[b..] == Weave(gaps[1..], ws[1..])
    ensures Separators(gaps[1..]) && Words(ws[1..])
    ensures SplitFrom(s, b) == ws[1..] ==> SplitFrom(s, i) == ws
  {
    var a := i + |gaps[0]|;
    WeavePositions(s, i, gaps, ws);
    WeaveTail(gaps, ws);
    SkipSpacesAt(s, i, a);
    WordEndAt(s, a, b);
    SplitFromConsAt(s, i, a, b, ws);
  }

  /** A token found between `a` and `b` heads the tokens from `i`. */
  lemma SplitFromConsAt(s: string, i: nat, a: nat, b: nat, ws: seq<string>)
    requires i <= a < b <= |s| && SkipSpaces(s, i) == a && WordEnd(s, a) == b
    requires |ws| > 0 && s[a..b] == ws[0]
    ensures SplitFrom(s, b) == ws[1..] ==> SplitFrom(s, i) == ws
  {
    SplitFromUnfold(s, i);
    assert [ws[0]] + ws[1..] == ws;
  }

  /** A weave without tokens is blank and splits into nothing. */
  lemma WeaveBlank(s: string, i: nat, gaps: seq<string>, ws: seq<string>)
    requires i <= |s| && |gaps| == |ws| + 1 && |ws| == 0 && Separators(gaps)
    requires s[i..] == Weave(gaps, ws)
    ensures SplitFrom(s, i) == ws
  {
    WeaveHead(gaps, ws);
    SplitFromBlank(s, i, gaps[0]);
    assert ws == [];
  }

  /** Whitespace skipping does not depend on what precedes the start. */
  lemma SkipSpacesAppend(p: string, t: string, j: nat)
    requires j <= |t|
    ensures SkipSpaces(p + t, |p| + j) == |p| + SkipSpaces(t, j)
  {
    var a := SkipSpaces(t, j);
    assert forall k :: |p| + j <= k < |p| + a ==> (p + t)[k] == t[k - |p|];
    assert |p| + a < |p + t| ==> (p + t)[|p| + a] == t[a];
    SkipSpacesAt(p + t, |p| + j, |p| + a);
  }

  /** Nor does the end of a word. */
  lemma WordEndAppend(p: string, t: string, j: nat)
    requires j <= |t|
    ensures WordEnd(p + t, |p| + j) == |p| + WordEnd(t, j)
  {
    var e := WordEnd(t, j);
    assert forall k :: |p| + j <= k < |p| + e ==> (p + t)[k] == t[k - |p|];
    assert |p| + e < |p + t| ==> (p + t)[|p| + e] == t[e];
    WordEndAt(p + t, |p| + j, |p| + e);
  }

  /** The tokens of `p + t` after `p` are the tokens of `t`. */
  lemma {:induction false} SplitFromAppend(p: string, t: string, j: nat)
    requires j <= |t|
    ensures SplitFrom(p + t, |p| + j) == SplitFrom(t, j)
    decreases |t| - j
  {
    var a := SkipSpaces(t, j);
    SkipSpacesAppend(p, t, j);
    if a < |t| {
      var e := WordEnd(t, a);
      WordEndAppend(p, t, a);
      SplitFromAppend(p, t, e);
      AppendStep(p, t, j, a, e);
    } else {
      AppendEnd(p, t, j);
    }
  }

  /** The step of `SplitFromAppend`: the same token heads both sides. */
  lemma AppendStep(p: string, t: string, j: nat, a: nat, e: nat)
    requires j <= a < e <= |t|
    requires SkipSpaces(t, j) == a && WordEnd(t, a) == e
    requires SkipSpaces(p + t, |p| + j) == |p| + a && WordEnd(p + t, |p| + a) == |p| + e
    ensures SplitFrom(p + t, |p| + e) == SplitFrom(t, e) ==> SplitFrom(p + t, |p| + j) == SplitFrom(t, j)
  {
    AppendHead(p, t, j, a, e);
    SplitFromUnfoldAt(t, j, a, e, t[a..e]);
  }

  /** The token of `p + t` after `|p| + j` is the one of `t` after `j`. */
  lemma AppendHead(p: string, t: string, j: nat, a: nat, e: nat)
    requires j <= a < e <= |t|
    requires SkipSpaces(p + t, |p| + j) == |p| + a && WordEnd(p + t, |p| + a) == |p| + e
    ensures SplitFrom(p + t, |p| + j) == [t[a..e]] + SplitFrom(p + t, |p| + e)
  {
    var s := p + t;
    SplitFromUnfoldAt(s, |p| + j, |p| + a, |p| + e, s[|p| + a..|p| + e]);
    AppendHeadRewrite(SplitFrom(s, |p| + j), SplitFrom(s, |p| + e), p, t, a, e);
  }

  /** A token cut from `p + t` after `p` is the same cut from `t`; kept
      apart so that the two slices never meet the tokenizer's facts. */
  lemma AppendHeadRewrite(x: seq<string>, r: seq<string>, p: string, t: string, a: nat, e: nat)
    requires a <= e <= |t|
    requires x == [(p + t)[|p| + a..|p| + e]] + r
    ensures x == [t[a..e]] + r
  {
    AppendSlice(p, t, a, e);
  }

  /** One step of splitting, with the token's bounds given. */
  lemma SplitFromUnfoldAt(s: string, i: nat, a: nat, e: nat, w: string)
    requires i <= a < |s| && SkipSpaces(s, i) == a && WordEnd(s, a) == e && s[a..e] == w
    ensures SplitFrom(s, i) == [w] + SplitFrom(s, e)
  {
  }

  lemma AppendSlice(p: string, t: string, a: nat, e: nat)
    requires a <= e <= |t|
    ensures (p + t)[|p| + a..|p| + e] == t[a..e]
  {
  }

  /** Nothing but whitespace after `|p| + j`: no tokens on either side. */
  lemma AppendEnd(p: string, t: string, j: nat)
    requires j <= |t| && SkipSpaces(t, j) == |t|
    requires SkipSpaces(p + t, |p| + j) == |p| + SkipSpaces(t, j)
    ensures SplitFrom(p + t, |p| + j) == [] && SplitFrom(t, j) == []
  {
  }

  /** The tokens of `p + t` from the end of `p` on. */
  lemma SplitFromAfter(p: string, t: string)
    ensures SplitFrom(p + t, |p|) == SplitFrom(t, 0)
  {
    SplitFromAppend(p, t, 0);
  }

  /** One token of a weave: splitting takes it and goes on with the
      weave of what follows. */
  lemma WeaveStepWs(gaps: seq<string>, ws: seq<string>)
    requires |gaps| == |ws| + 1 && |ws| > 0 && Separators(gaps) && Words(ws)
    ensures Separators(gaps[1..]) && Words(ws[1..])
    ensures SplitFrom(Weave(gaps[1..], ws[1..]), 0) == ws[1..] ==> SplitFrom(Weave(gaps, ws), 0) == ws
  {
    var u := Weave(gaps, ws);
    var p := gaps[0] + ws[0];
    assert u[0..] == u;
    WeaveHead(gaps, ws);
    WeaveStep(u, 0, |p|, gaps, ws);
    SplitFromAfter(p, Weave(gaps[1..], ws[1..]));
  }

  /** Tokens separated by whitespace runs are what splitting finds. */
  lemma {:induction false} WeaveSplit(gaps: seq<string>, ws: seq<string>)
    requires |gaps| == |ws| + 1 && Separators(gaps) && Words(ws)
    ensures SplitFrom(Weave(gaps, ws), 0) == ws
    decreases |ws|
  {
    if |ws| == 0 {
      var u := Weave(gaps, ws);
      assert u[0..] == u;
      WeaveBlank(u, 0, gaps, ws);
    } else {
      WeaveStepWs(gaps, ws);
      WeaveSplit(gaps[1..], ws[1..]);
    }
  }

  /** A blank rest of `s` has no tokens. */
  lemma SplitFromBlank(s: string, i: nat, g: string)
    requires i <= |s| && s[i..] == g && AllSpace(g)
    ensures SplitFrom(s, i) == []
  {
    assert forall k :: i <= k < |s| ==> IsSpace(s[k]) by {
      forall k | i <= k < |s| ensures IsSpace(s[k]) {
        assert s[k] == s[i..][k - i] == g[k - i];
      }
    }
    SplitFromSpec(s, i);
  }

  /** `str.split()` finds the maximal whitespace-free runs: `s` is its
      tokens woven with whitespace runs, non-empty between tokens. */
  lemma SplitWsRuns(s: string)
    ensures exists gaps :: |gaps| == |SplitWs(s)| + 1 && Separators(gaps) && s == Weave(gaps, SplitWs(s))
  {
    var gaps := SplitFromGaps(s, 0);
    assert s[0..] == s;
  }

  /** Conversely, words woven with such whitespace runs are exactly what
      `str.split()` returns, so the tokens are determined by the text. */
  lemma SplitWsUnique(s: string, gaps: seq<string>, ws: seq<string>)
    requires Words(ws) && |gaps| == |ws| + 1 && Separators(gaps)
    requires s == Weave(gaps, ws)
    ensures SplitWs(s) == ws
  {
    WeaveSplit(gaps, ws);
  }

  /** `sep.join(ws)`. */
  function Join(ws: seq<string>, sep: string): string
    decreases |ws|
  {
    if |ws| == 0 then ""
    else if |ws| == 1 then ws[0]
    else ws[0] + sep + Join(ws[1..], sep)
  }

  /** A string of words joined by single spaces starts and ends with a
      word character. */
  lemma {:induction false} JoinWordsEnds(ws: seq<string>)
    requires |ws| > 0
    requires forall k :: 0 <= k < |ws| ==> IsWord(ws[k])
    ensures |Join(ws, " ")| > 0
    ensures !IsSpace(Join(ws, " ")[0])
    ensures !IsSpace(Join(ws, " ")[|Join(ws, " ")| - 1])
    decreases |ws|
  {
    if |ws| > 1 {
      JoinWordsEnds(ws[1..]);
      var rest := Join(ws[1..], " ");
      assert Join(ws, " ") == ws[0] + " " + rest;
      assert Join(ws, " ")[0] == ws[0][0];
      assert Join(ws, " ")[|Join(ws, " ")| - 1] == rest[|rest| - 1];
    } else {
      assert Join(ws, " ") == ws[0];
    }
  }

  /** A whitespace character at `i` contributes no token. */
  lemma SplitFromSkip(s: string, i: nat)
    requires i < |s| && IsSpace(s[i])
    ensures SplitFrom(s, i) == SplitFrom(s, i + 1)
  {
    assert SkipSpaces(s, i) == SkipSpaces(s, i + 1);
  }

  /** A maximal run of non-whitespace starting at `a` is the next token. */
  lemma SplitFromWord(s: string, a: nat, b: nat)
    requires a < b <= |s|
    requires forall k :: a <= k < b ==> !IsSpace(s[k])
    requires b < |s| ==> IsSpace(s[b])
    ensures SplitFrom(s, a) == [s[a..b]] + SplitFrom(s, b)
  {
    assert SkipSpaces(s, a) == a;
    assert WordEnd(s, a) == b;
  }

  /** A word at `a`, a space after it, and the tokens `rest` after that. */
  lemma SplitFromCons(s: string, a: nat, b: nat, rest: seq<string>)
    requires a < b < |s|
    requires forall k :: a <= k < b ==> !IsSpace(s[k])
    requires IsSpace(s[b])
    requires SplitFrom(s, b + 1) == rest
    ensures SplitFrom(s, a) == [s[a..b]] + rest
  {
    SplitFromWord(s, a, b);
    SplitFromSkip(s, b);
  }

  /** Nothing left: no tokens. */
  lemma SplitFromEnd(s: string, i: nat)
    requires i <= |s| && s[i..] == ""
    ensures SplitFrom(s, i) == []
  {
    assert i == |s|;
    assert SkipSpaces(s, i) == |s|;
  }

  /** A word that makes up the rest of `s` is its last token. */
  lemma SplitFromLast(s: string, i: nat, w: string)
    requires i <= |s| && s[i..] == w && IsWord(w)
    ensures SplitFrom(s, i) == [w]
  {
    assert forall k :: i <= k < |s| ==> s[k] == w[k - i];
    assert s[i..|s|] == w;
    SplitFromWord(s, i, |s|);
    SplitFromEnd(s, |s|);
  }

  /** The parts of a word followed by a space and more text. */
  lemma WordThenSpace(t: string, w: string, rest: string)
    requires t == w + " " + rest
    ensures |t| == |w| + 1 + |rest|
    ensures t[..|w|] == w && t[|w|] == ' ' && t[|w| + 1..] == rest
    ensures forall k :: 0 <= k < |w| ==> t[k] == w[k]
  {
  }

  /** Where a word followed by a space and more text sits in `s`. */
  lemma WordSpaceAt(s: string, i: nat, w: string, rest: string)
    requires i <= |s| && s[i..] == w + " " + rest && IsWord(w)
    ensures i + |w| < |s| && s[i..i + |w|] == w && s[i + |w|] == ' ' && s[i + |w| + 1..] == rest
    ensures forall k :: i <= k < i + |w| ==> !IsSpace(s[k])
  {
    var t := s[i..];
    WordThenSpace(t, w, rest);
    assert forall k :: i <= k < |s| ==> s[k] == t[k - i];
    assert s[i..i + |w|] == w;
    assert s[i + |w| + 1..] == rest;
  }

  /** Splitting from `i`, where the rest of `s` is words joined by single
      spaces, gives the words back. */
  lemma {:induction false} SplitFromJoin(s: string, i: nat, ws: seq<string>)
    requires i <= |s| && s[i..] == Join(ws, " ")
    requires forall k :: 0 <= k < |ws| ==> IsWord(ws[k])
    ensures SplitFrom(s, i) == ws
    decreases |ws|
  {
    if |ws| == 0 {
      SplitFromEnd(s, i);
    } else if |ws| == 1 {
      SplitFromLast(s, i, ws[0]);
    } else {
      var b := i + |ws[0]|;
      var rest := Join(ws[1..], " ");
      assert s[i..] == ws[0] + " " + rest;
      WordSpaceAt(s, i, ws[0], rest);
      SplitFromJoin(s, b + 1, ws[1..]);
      SplitFromCons(s, i, b, ws[1..]);
      assert ws == [ws[0]] + ws[1..];
    }
  }

  /** Round trip: splitting words joined by single spaces gives the words
      back. */
  lemma SplitJoin(ws: seq<string>)
    requires forall k :: 0 <= k < |ws| ==> IsWord(ws[k])
    ensures SplitWs(Join(ws, " ")) == ws
  {
    SplitFromJoin(Join(ws, " "), 0, ws);
  }

  /** `s.replace(c, r)` for a one-character pattern `c`. */
  function ReplaceChar(s: string, c: char, r: string): string
    decreases |s|
  {
    if |s| == 0 then ""
    else (if s[0] == c then r else [s[0]]) + ReplaceChar(s[1..], c, r)
  }

  /** Nothing changes without an occurrence of `c`; otherwise every
      character of the result comes from `r` or is a character of `s`
      other than `c`. */
  lemma {:induction false} ReplaceCharSpec(s: string, c: char, r: string)
    ensures c !in s ==> ReplaceChar(s, c, r) == s
    ensures forall k :: 0 <= k < |ReplaceChar(s, c, r)| ==>
              ReplaceChar(s, c, r)[k] in r || (ReplaceChar(s, c, r)[k] in s && ReplaceChar(s, c, r)[k] != c)
    decreases |s|
  {
    if |s| > 0 {
      ReplaceCharSpec(s[1..], c, r);
      var rest := ReplaceChar(s[1..], c, r);
      assert forall k :: 0 <= k < |rest| ==> rest[k] in s[1..] ==> rest[k] in s;
    }
  }

  /** Characters other than `c` survive the replacement. */
  lemma {:induction false} ReplaceCharKeeps(s: string, c: char, r: string, d: char)
    requires d in s && d != c
    ensures d in ReplaceChar(s, c, r)
    decreases |s|
  {
    if s[0] != d {
      assert d in s[1..];
      ReplaceCharKeeps(s[1..], c, r, d);
    }
  }

  /** Replacing distributes over concatenation. */
  lemma {:induction false} ReplaceCharAppend(a: string, b: string, c: char, r: string)
    ensures ReplaceChar(a + b, c, r) == ReplaceChar(a, c, r) + ReplaceChar(b, c, r)
    decreases |a|
  {
    if |a| > 0 {
      assert (a + b)[1..] == a[1..] + b;
      ReplaceCharAppend(a[1..], b, c, r);
    } else {
      assert a + b == b;
    }
  }

  predicate EndsWith(s: string, suffix: string) {
    |suffix| <= |s| && s[|s| - |suffix|..] == suffix
  }

  /** Python's `<` on strings: lexicographic by code point, a proper prefix
      first. */
  predicate LexLess(a: string, b: string)
    decreases |a|
  {
    if |a| == 0 then |b| > 0
    else if |b| == 0 then false
    else a[0] < b[0] || (a[0] == b[0] && LexLess(a[1..], b[1..]))
  }

  predicate LexLessEq(a: string, b: string) {
    a == b || LexLess(a, b)
  }

  lemma {:induction false} LexTotal(a: string, b: string)
    ensures LexLessEq(a, b) || LexLess(b, a)
    decreases |a|
  {
    if |a| > 0 && |b| > 0 && a[0] == b[0] {
      LexTotal(a[1..], b[1..]);
      if a[1..] == b[1..] {
        assert a == [a[0]] + a[1..] && b == [b[0]] + b[1..];
      }
    }
  }

  lemma {:induction false} LexTransitive(a: string, b: string, c: string)
    requires LexLess(a, b) && LexLess(b, c)
    ensures LexLess(a, c)
    decreases |a|
  {
    if |a| > 0 && a[0] == b[0] && b[0] == c[0] {
      LexTransitive(a[1..], b[1..], c[1..]);
    }
  }

  /** A common prefix does not change the order. */
  lemma {:induction false} LexLessPrefix(p: string, a: string, b: string)
    ensures LexLess(p + a, p + b) <==> LexLess(a, b)
    decreases |p|
  {
    if |p| > 0 {
      assert (p + a)[0] == p[0] == (p + b)[0];
      assert (p + a)[1..] == p[1..] + a && (p + b)[1..] == p[1..] + b;
      LexLessPrefix(p[1..], a, b);
    } else {
      assert p + a == a && p + b == b;
    }
  }

  predicate SortedLex(s: seq<string>) {
    forall i, j :: 0 <= i < j < |s| ==> LexLessEq(s[i], s[j])
  }

  /** A head no greater than any element of a sorted tail keeps the list
      sorted. */
  lemma SortedCons(h: string, t: seq<string>)
    requires SortedLex(t)
    requires forall j :: 0 <= j < |t| ==> LexLessEq(h, t[j])
    ensures SortedLex([h] + t)
  {
    var r := [h] + t;
    forall i, j | 0 <= i < j < |r| ensures LexLessEq(r[i], r[j]) {
      assert r[j] == t[j - 1];
      if i > 0 { assert r[i] == t[i - 1]; }
    }
  }

  function Insert(x: string, s: seq<string>): (r: seq<string>)
    requires SortedLex(s)
    ensures multiset(r) == multiset(s) + multiset{x}
    ensures SortedLex(r)
    decreases |s|
  {
    if |s| == 0 then [x]
    else if LexLessEq(x, s[0]) then
      assert forall j :: 0 < j < |s| ==> LexLessEq(x, s[j]) by {
        forall j | 0 < j < |s| ensures LexLessEq(x, s[j]) {
          if x != s[0] && s[0] != s[j] { LexTransitive(x, s[0], s[j]); }
        }
      }
      SortedCons(x, s);
      [x] + s
    else
      LexTotal(x, s[0]);
      assert SortedLex(s[1..]) by {
        forall i, j | 0 <= i < j < |s| - 1 ensures LexLessEq(s[1..][i], s[1..][j]) {
          assert s[1..][i] == s[i + 1] && s[1..][j] == s[j + 1];
        }
      }
      var rest := Insert(x, s[1..]);
      assert s == [s[0]] + s[1..];
      assert forall j :: 0 <= j < |rest| ==> LexLessEq(s[0], rest[j]) by {
        forall j | 0 <= j < |rest| ensures LexLessEq(s[0], rest[j]) {
          assert rest[j] in multiset(rest);
          assert rest[j] == x || rest[j] in s[1..];
        }
      }
      SortedCons(s[0], rest);
      [s[0]] + rest
  }

  /** `sorted(names)`: the same names in non-decreasing code-point order. */
  function Sort(s: seq<string>): (r: seq<string>)
    ensures multiset(r) == multiset(s)
    ensures SortedLex(r)
    decreases |s|
  {
    if |s| == 0 then []
    else
      assert s == [s[0]] + s[1..];
      Insert(s[0], Sort(s[1..]))
  }
}
