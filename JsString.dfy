/** The parts of JavaScript's `String.prototype` that the build script uses
    with a plain string (not a regular expression) as argument: `indexOf`,
    `replace` (first occurrence only), `split(sep)[0]` and the `---` prefix
    test. Strings are sequences of Unicode scalar values. */
module JsString {
  import opened Wrappers

  /** `w` occurs in `s` starting at index `i`. */
  predicate OccursAt(s: string, w: string, i: nat) {
    i + |w| <= |s| && s[i..i + |w|] == w
  }

  predicate StartsWith(s: string, w: string) {
    |w| <= |s| && s[..|w|] == w
  }

  predicate EndsWith(s: string, w: string) {
    |w| <= |s| && s[|s| - |w|..] == w
  }

  /** A suffix of a suffix is a suffix. */
  lemma EndsWithTrans(a: string, b: string, c: string)
    requires EndsWith(a, b) && EndsWith(b, c)
    ensures EndsWith(a, c)
  {
    assert a[|a| - |c|..] == a[|a| - |b|..][|b| - |c|..];
  }

  lemma EndsWithAppend(a: string, b: string)
    ensures EndsWith(a + b, b)
  {
    assert (a + b)[|a|..] == b;
  }

  lemma StartsWithCons(s: string, c: char, w: string)
    ensures StartsWith(s, [c] + w) <==> |s| > 0 && s[0] == c && StartsWith(s[1..], w)
  {
    if |s| > 0 && s[0] == c && StartsWith(s[1..], w) {
      assert s[..|w| + 1] == [c] + s[1..][..|w|];
    }
    if StartsWith(s, [c] + w) {
      assert s[0] == ([c] + w)[0];
      assert s[1..][..|w|] == s[..|w| + 1][1..];
    }
  }

  /** No occurrence of `w` starts anywhere in `s`. */
  predicate Absent(s: string, w: string) {
    forall i :: 0 <= i <= |s| ==> !OccursAt(s, w, i)
  }

  /** The first index at or after `k` where `w` occurs. */
  function IndexFrom(s: string, w: string, k: nat): (r: Option<nat>)
    requires k <= |s|
    ensures r.Some? ==> k <= r.value <= |s| && OccursAt(s, w, r.value)
    ensures r.Some? ==> forall j :: k <= j < r.value ==> !OccursAt(s, w, j)
    ensures r.None? ==> forall j :: k <= j <= |s| ==> !OccursAt(s, w, j)
    decreases |s| - k
  {
    if OccursAt(s, w, k) then Some(k)
    else if k == |s| then None
    else IndexFrom(s, w, k + 1)
  }

  /** `s.indexOf(w)`, with `None` for JavaScript's `-1`. */
  function IndexOf(s: string, w: string): (r: Option<nat>)
    ensures r.Some? ==> OccursAt(s, w, r.value)
    ensures r.Some? ==> forall j :: 0 <= j < r.value ==> !OccursAt(s, w, j)
    ensures r.None? <==> Absent(s, w)
  {
    IndexFrom(s, w, 0)
  }

  /** The result of `IndexOf` is the first occurrence and nothing else. */
  lemma IndexOfFirst(s: string, w: string, i: nat)
    requires OccursAt(s, w, i)
    requires forall j :: 0 <= j < i ==> !OccursAt(s, w, j)
    ensures IndexOf(s, w) == Some(i)
  {
  }

  /** `s.replace(w, rep)` with a string pattern: only the first occurrence of
      `w` is replaced; without one the string is returned unchanged. */
  function ReplaceFirst(s: string, w: string, rep: string): string {
    match IndexOf(s, w)
    case None => s
    case Some(i) => s[..i] + rep + s[i + |w|..]
  }

  /** `s.split(sep)[0]`: the text before the first occurrence of `sep`, or
      the whole string when `sep` does not occur. */
  function SplitFirst(s: string, sep: string): string
    requires |sep| > 0
  {
    match IndexOf(s, sep)
    case None => s
    case Some(i) => s[..i]
  }

  /** What `SplitFirst` keeps: a prefix of `s` in which `sep` does not start
      anywhere, followed in `s` either by `sep` or by nothing. */
  lemma SplitFirstSpec(s: string, sep: string)
    requires |sep| > 0
    ensures var r := SplitFirst(s, sep);
      && StartsWith(s, r)
      && (forall j :: 0 <= j < |r| ==> !OccursAt(s, sep, j))
      && (r == s || OccursAt(s, sep, |r|))
      && (r == s <==> Absent(s, sep))
  {
    var r := SplitFirst(s, sep);
    match IndexOf(s, sep)
    case None =>
    case Some(i) =>
      assert r == s[..i];
      assert |r| < |s| by { assert OccursAt(s, sep, i); }
  }

  /** What `ReplaceFirst` does: the first occurrence, and only it, is
      replaced; without an occurrence nothing changes. */
  lemma ReplaceFirstSpec(s: string, w: string, rep: string)
    ensures Absent(s, w) ==> ReplaceFirst(s, w, rep) == s
    ensures forall i: nat :: OccursAt(s, w, i) && (forall j :: 0 <= j < i ==> !OccursAt(s, w, j)) ==>
      ReplaceFirst(s, w, rep) == s[..i] + rep + s[i + |w|..]
  {
    forall i: nat | OccursAt(s, w, i) && (forall j :: 0 <= j < i ==> !OccursAt(s, w, j))
      ensures ReplaceFirst(s, w, rep) == s[..i] + rep + s[i + |w|..]
    {
      IndexOfFirst(s, w, i);
    }
  }

  /** No occurrence of `w` starts inside `h` when `w`'s first character is
      not in `h`. */
  lemma PrefixBlocks(h: string, c: string, w: string, j: nat)
    requires |w| > 0 && w[0] !in h && j < |h|
    ensures !OccursAt(h + c, w, j)
  {
  }

  lemma OccursShift(h: string, c: string, w: string, j: nat)
    ensures OccursAt(h + c, w, |h| + j) == OccursAt(c, w, j)
  {
    if j + |w| <= |c| {
      assert (h + c)[|h| + j..|h| + j + |w|] == c[j..j + |w|];
    }
  }

  /** When no occurrence of `w` can start inside the prefix `h` (its first
      character is not in `h`), the first occurrence in `h + c` is the first
      one in `c`, shifted by `|h|`. */
  lemma IndexOfAfterPrefix(h: string, c: string, w: string)
    requires |w| > 0 && w[0] !in h
    ensures IndexOf(c, w).None? ==> IndexOf(h + c, w).None?
    ensures IndexOf(c, w).Some? ==> IndexOf(h + c, w) == Some(|h| + IndexOf(c, w).value)
  {
    var s := h + c;
    var r := IndexOf(c, w);
    forall j: nat | j < |h| + (if r.Some? then r.value else |c| + 1)
      ensures !OccursAt(s, w, j)
    {
      if j < |h| {
        PrefixBlocks(h, c, w, j);
      } else {
        OccursShift(h, c, w, j - |h|);
      }
    }
    if r.Some? {
      OccursShift(h, c, w, r.value);
      IndexOfFirst(s, w, |h| + r.value);
    }
  }

  lemma ReplaceFirstAt(s: string, w: string, rep: string, i: nat)
    requires IndexOf(s, w) == Some(i)
    ensures ReplaceFirst(s, w, rep) == s[..i] + rep + s[i + |w|..]
  {
  }

  lemma ReplaceFirstNone(s: string, w: string, rep: string)
    requires IndexOf(s, w).None?
    ensures ReplaceFirst(s, w, rep) == s
  {
  }

  /** Splicing `rep` into `c` at `i`, seen from `h + c`. */
  lemma SpliceShift(h: string, c: string, rep: string, i: nat, n: nat)
    requires i + n <= |c|
    ensures (h + c)[..|h| + i] + rep + (h + c)[|h| + i + n..] == h + (c[..i] + rep + c[i + n..])
  {
    var s := h + c;
    assert s[..|h| + i] == h + c[..i];
    assert s[|h| + i + n..] == c[i + n..];
  }

  lemma ReplaceFirstAfterPrefixAt(h: string, c: string, w: string, rep: string, i: nat)
    requires IndexOf(c, w) == Some(i) && IndexOf(h + c, w) == Some(|h| + i)
    ensures ReplaceFirst(h + c, w, rep) == h + ReplaceFirst(c, w, rep)
  {
    ReplaceFirstAt(h + c, w, rep, |h| + i);
    ReplaceFirstAt(c, w, rep, i);
    SpliceShift(h, c, rep, i, |w|);
  }

  lemma ReplaceFirstAfterPrefix(h: string, c: string, w: string, rep: string)
    requires |w| > 0 && w[0] !in h
    ensures ReplaceFirst(h + c, w, rep) == h + ReplaceFirst(c, w, rep)
  {
    IndexOfAfterPrefix(h, c, w);
    var r := IndexOf(c, w);
    if r.Some? {
      ReplaceFirstAfterPrefixAt(h, c, w, rep, r.value);
    } else {
      ReplaceFirstNone(h + c, w, rep);
      ReplaceFirstNone(c, w, rep);
    }
  }

  lemma SplitFirstAfterPrefix(h: string, c: string, sep: string)
    requires |sep| > 0 && sep[0] !in h
    ensures SplitFirst(h + c, sep) == h + SplitFirst(c, sep)
  {
    IndexOfAfterPrefix(h, c, sep);
    var r := IndexOf(c, sep);
    if r.Some? {
      var s := h + c;
      assert s[..|h| + r.value] == h + c[..r.value];
    }
  }

  /** The concatenation of `f` applied to every character of `s`. */
  function ConcatMap(f: char -> string, s: string): string {
    if s == [] then [] else f(s[0]) + ConcatMap(f, s[1..])
  }

  lemma {:induction false} ConcatMapAppend(f: char -> string, a: string, b: string)
    ensures ConcatMap(f, a + b) == ConcatMap(f, a) + ConcatMap(f, b)
  {
    if a == [] {
      assert a + b == b;
    } else {
      assert (a + b)[1..] == a[1..] + b;
      ConcatMapAppend(f, a[1..], b);
    }
  }

  lemma {:induction false} ConcatMapExt(f: char -> string, g: char -> string, s: string)
    requires forall c :: f(c) == g(c)
    ensures ConcatMap(f, s) == ConcatMap(g, s)
  {
    if s != [] {
      ConcatMapExt(f, g, s[1..]);
    }
  }

  /** A character is in `ConcatMap(f, s)` only if it is in the chunk of some
      character of `s`. */
  lemma {:induction false} ConcatMapChars(f: char -> string, s: string, x: char)
    requires forall c :: c in s ==> x !in f(c)
    ensures x !in ConcatMap(f, s)
  {
    if s != [] {
      assert s[0] in s;
      forall c | c in s[1..] ensures x !in f(c) {
        assert c in s;
      }
      ConcatMapChars(f, s[1..], x);
    }
  }

  /** When every character's chunk is that character alone, with `sub`
      applied, `ConcatMap` maps the string character by character. */
  lemma {:induction false} ConcatMapPointwise(f: char -> string, s: string, sub: char -> char)
    requires forall c :: c in s ==> f(c) == [sub(c)]
    ensures var r := ConcatMap(f, s); |r| == |s| && forall i :: 0 <= i < |s| ==> r[i] == sub(s[i])
  {
    if s != [] {
      assert s[0] in s;
      forall c | c in s[1..] ensures f(c) == [sub(c)] {
        assert c in s;
      }
      ConcatMapPointwise(f, s[1..], sub);
    }
  }
}
