/** The small fragment of JavaScript regular expressions that the build
    script's `replace(/…/g, …)` calls use: literal characters, `.` (any
    character except a line terminator) and `\b` (a word boundary), with no
    alternation, quantifier or group. Such a pattern matches at most one
    way, so matching needs no backtracking. The global replace scans the
    input from left to right, as `String.prototype.replace` with a `g`
    regular expression does. */
module JsRegex {
  import opened Wrappers
  import opened JsString

  datatype Atom = Lit(c: char) | AnyChar | WordBoundary

  type Pattern = seq<Atom>

  /** The characters `\b` counts as word characters (no `u` or `i` flag). */
  predicate IsWordChar(c: char) {
    'a' <= c <= 'z' || 'A' <= c <= 'Z' || '0' <= c <= '9' || c == '_'
  }

  /** The characters `.` does not match (no `s` flag). */
  predicate IsLineTerminator(c: char) {
    c == '\n' || c == '\r' || c == '\U{2028}' || c == '\U{2029}'
  }

  predicate WordBefore(prev: Option<char>) {
    prev.Some? && IsWordChar(prev.value)
  }

  /** The character before the position reached after reading `t`. */
  function LastOf(prev: Option<char>, t: string): Option<char> {
    if t == [] then prev else Some(t[|t| - 1])
  }

  /** How many characters a match of `p` consumes. */
  function Width(p: Pattern): nat {
    if p == [] then 0 else (if p[0].WordBoundary? then 0 else 1) + Width(p[1..])
  }

  /** The length of the match of `p` at the start of `s`, where `prev` is
      the character just before (`None` at the start of the input). */
  function MatchLen(prev: Option<char>, s: string, p: Pattern): (r: Option<nat>)
    ensures r.Some? ==> r.value == Width(p) <= |s|
    decreases |p|
  {
    if p == [] then Some(0)
    else match p[0]
      case WordBoundary =>
        if WordBefore(prev) != (|s| > 0 && IsWordChar(s[0])) then MatchLen(prev, s, p[1..]) else None
      case Lit(c) =>
        if |s| > 0 && s[0] == c then
          var n :- MatchLen(Some(s[0]), s[1..], p[1..]);
          Some(n + 1)
        else None
      case AnyChar =>
        if |s| > 0 && !IsLineTerminator(s[0]) then
          var n :- MatchLen(Some(s[0]), s[1..], p[1..]);
          Some(n + 1)
        else None
  }

  /** `s.replace(re, rep)` for a global `re` with pattern `p`, continuing a
      scan whose previous character is `prev`. Matches never overlap;
      where no match starts, one character is copied. The replacement is
      taken literally. */
  function ReplaceAllFrom(prev: Option<char>, s: string, p: Pattern, rep: string): string
    requires Width(p) > 0
    decreases |s|
  {
    if s == [] then []
    else match MatchLen(prev, s, p)
      case Some(n) => rep + ReplaceAllFrom(Some(s[n - 1]), s[n..], p, rep)
      case None => [s[0]] + ReplaceAllFrom(Some(s[0]), s[1..], p, rep)
  }

  /** `s.replace(re, rep)` for a global regular expression with pattern `p`. */
  function ReplaceGlobal(s: string, p: Pattern, rep: string): string
    requires Width(p) > 0
  {
    ReplaceAllFrom(None, s, p, rep)
  }

  /** The pattern written as `src` in a regular-expression literal that
      holds no escape other than for a character standing for itself:
      `.` is the wildcard, every other character matches itself. */
  function Atoms(src: string): (p: Pattern)
    ensures |p| == |src| && Width(p) == |src|
  {
    if src == [] then [] else [if src[0] == '.' then AnyChar else Lit(src[0])] + Atoms(src[1..])
  }

  /** `s` begins with text that the atoms of `src` match. */
  predicate DotMatch(s: string, src: string) {
    |src| <= |s| && forall k :: 0 <= k < |src| ==> AtomOk(src[k], s[k])
  }

  /** One atom of `src` against one character of `s`. */
  predicate AtomOk(x: char, c: char) {
    if x == '.' then !IsLineTerminator(c) else c == x
  }

  lemma DotMatchCons(s: string, src: string)
    requires s != [] && src != []
    ensures DotMatch(s, src) <==> AtomOk(src[0], s[0]) && DotMatch(s[1..], src[1..])
  {
    if AtomOk(src[0], s[0]) && DotMatch(s[1..], src[1..]) {
      forall k | 0 <= k < |src| ensures AtomOk(src[k], s[k]) {
        if k > 0 {
          assert AtomOk(src[1..][k - 1], s[1..][k - 1]);
        }
      }
    }
    if DotMatch(s, src) {
      assert AtomOk(src[0], s[0]);
      forall k | 0 <= k < |src| - 1 ensures AtomOk(src[1..][k], s[1..][k]) {
        assert AtomOk(src[k + 1], s[k + 1]);
      }
    }
  }

  /** A pattern that starts with a character-consuming atom `x`. */
  lemma ConsumeStep(prev: Option<char>, s: string, x: Atom, q: Pattern)
    requires s != [] && !x.WordBoundary?
    ensures MatchLen(prev, s, [x] + q) ==
      if !(if x.AnyChar? then !IsLineTerminator(s[0]) else s[0] == x.c) then None
      else match MatchLen(Some(s[0]), s[1..], q)
        case None => None
        case Some(n) => Some(n + 1)
  {
    assert ([x] + q)[0] == x && ([x] + q)[1..] == q;
  }

  lemma ConsAssoc(x: Atom, a: Pattern, q: Pattern)
    ensures ([x] + a) + q == [x] + (a + q)
  {
  }

  /** One atom of `Atoms(src)` against the first character of `s`. */
  lemma AtomStep(prev: Option<char>, s: string, src: string, q: Pattern)
    requires s != [] && src != []
    ensures MatchLen(prev, s, Atoms(src) + q) ==
      if !AtomOk(src[0], s[0]) then None
      else match MatchLen(Some(s[0]), s[1..], Atoms(src[1..]) + q)
        case None => None
        case Some(n) => Some(n + 1)
  {
    var x := if src[0] == '.' then AnyChar else Lit(src[0]);
    var a := Atoms(src[1..]);
    assert Atoms(src) == [x] + a;
    ConsAssoc(x, a, q);
    ConsumeStep(prev, s, x, a + q);
  }

  /** The outcome of matching `Atoms(src)` and then `q`, read off the
      text: the atoms must accept the first `|src|` characters, then `q`
      goes on from there. */
  function AfterAtoms(prev: Option<char>, s: string, src: string, q: Pattern): Option<nat> {
    if !DotMatch(s, src) then None
    else match MatchLen(LastOf(prev, s[..|src|]), s[|src|..], q)
      case None => None
      case Some(n) => Some(|src| + n)
  }

  /** `AfterAtoms` one atom at a time. */
  lemma AfterAtomsStep(prev: Option<char>, s: string, src: string, q: Pattern)
    requires s != [] && src != []
    ensures AfterAtoms(prev, s, src, q) ==
      if !AtomOk(src[0], s[0]) then None
      else match AfterAtoms(Some(s[0]), s[1..], src[1..], q)
        case None => None
        case Some(n) => Some(n + 1)
  {
    DotMatchCons(s, src);
    if DotMatch(s, src) {
      assert s[1..][|src| - 1..] == s[|src|..];
      assert LastOf(Some(s[0]), s[1..][..|src| - 1]) == LastOf(prev, s[..|src|]);
    }
  }

  /** Matching `Atoms(src)` followed by `q`: the atoms consume exactly
      `|src|` characters, then `q` goes on from there. */
  lemma {:induction false} AtomsMatch(prev: Option<char>, s: string, src: string, q: Pattern)
    ensures MatchLen(prev, s, Atoms(src) + q) == AfterAtoms(prev, s, src, q)
    decreases |src|
  {
    if src == [] {
      assert Atoms(src) + q == q;
      assert s[..0] == [] && s[0..] == s;
    } else if s == [] {
      assert !DotMatch(s, src);
    } else {
      AtomStep(prev, s, src, q);
      AfterAtomsStep(prev, s, src, q);
      AtomsMatch(Some(s[0]), s[1..], src[1..], q);
    }
  }

  /** A literal pattern (no `.`) matches exactly where its text starts. */
  lemma LiteralMatch(prev: Option<char>, s: string, w: string)
    requires '.' !in w
    ensures MatchLen(prev, s, Atoms(w)) == if StartsWith(s, w) then Some(|w|) else None
  {
    AtomsMatch(prev, s, w, []);
    assert Atoms(w) + [] == Atoms(w);
    if DotMatch(s, w) {
      assert s[..|w|] == w by {
        forall k | 0 <= k < |w| ensures s[k] == w[k] {
          assert w[k] in w;
        }
      }
    } else if StartsWith(s, w) {
      forall k | 0 <= k < |w| ensures AtomOk(w[k], s[k]) {
        assert s[..|w|][k] == s[k];
        assert w[k] in w;
      }
    }
  }

  /** Without a `.`, the atoms of `w` match exactly where `w` starts. */
  lemma DotMatchLiteral(s: string, w: string)
    requires '.' !in w
    ensures DotMatch(s, w) <==> StartsWith(s, w)
  {
    if DotMatch(s, w) {
      assert s[..|w|] == w by {
        forall k | 0 <= k < |w| ensures s[k] == w[k] {
          assert w[k] in w;
        }
      }
    }
    if StartsWith(s, w) {
      forall k | 0 <= k < |w| ensures AtomOk(w[k], s[k]) {
        assert s[..|w|][k] == s[k];
        assert w[k] in w;
      }
    }
  }

  /** A match depends on the character before it only through whether
      that character is a word character. */
  lemma {:induction false} MatchLenPrev(p1: Option<char>, p2: Option<char>, s: string, p: Pattern)
    requires WordBefore(p1) == WordBefore(p2)
    ensures MatchLen(p1, s, p) == MatchLen(p2, s, p)
    decreases |p|
  {
    if p != [] && p[0].WordBoundary? {
      MatchLenPrev(p1, p2, s, p[1..]);
    }
  }

  /** So does a whole global replace. */
  lemma ReplaceAllFromPrev(p1: Option<char>, p2: Option<char>, s: string, p: Pattern, rep: string)
    requires Width(p) > 0 && WordBefore(p1) == WordBefore(p2)
    ensures ReplaceAllFrom(p1, s, p, rep) == ReplaceAllFrom(p2, s, p, rep)
  {
    if s != [] {
      MatchLenPrev(p1, p2, s, p);
    }
  }

  /** `\bsrc\b` for a `src` that starts and ends with a word character:
      it matches exactly where the text of `src` occurs with no word
      character immediately before or after it. */
  function WordPattern(src: string): (p: Pattern)
    ensures Width(p) == |src|
  {
    WidthAppend([WordBoundary], Atoms(src));
    WidthAppend([WordBoundary] + Atoms(src), [WordBoundary]);
    [WordBoundary] + Atoms(src) + [WordBoundary]
  }

  lemma {:induction false} WidthAppend(p: Pattern, q: Pattern)
    ensures Width(p + q) == Width(p) + Width(q)
  {
    if p == [] {
      assert p + q == q;
    } else {
      assert (p + q)[1..] == p[1..] + q;
      WidthAppend(p[1..], q);
    }
  }

  /** A leading `\b` tests the boundary and consumes nothing. */
  lemma BoundaryFirst(prev: Option<char>, s: string, q: Pattern)
    ensures MatchLen(prev, s, [WordBoundary] + q) ==
      if WordBefore(prev) != (|s| > 0 && IsWordChar(s[0])) then MatchLen(prev, s, q) else None
  {
    assert ([WordBoundary] + q)[0] == WordBoundary && ([WordBoundary] + q)[1..] == q;
  }

  /** A final `\b` matches exactly at a boundary. */
  lemma BoundaryLast(prev: Option<char>, s: string)
    ensures MatchLen(prev, s, [WordBoundary]).Some? <==> WordBefore(prev) != (|s| > 0 && IsWordChar(s[0]))
  {
    assert [WordBoundary][1..] == [];
  }

  lemma WordPatternMatch(prev: Option<char>, s: string, src: string)
    requires src != [] && IsWordChar(src[0]) && IsWordChar(src[|src| - 1])
    ensures MatchLen(prev, s, WordPattern(src)).Some? <==>
      !WordBefore(prev) && DotMatch(s, src) && (|s| == |src| || !IsWordChar(s[|src|]))
  {
    var q := Atoms(src) + [WordBoundary];
    assert WordPattern(src) == [WordBoundary] + q;
    BoundaryFirst(prev, s, q);
    AtomsMatch(prev, s, src, [WordBoundary]);
    if DotMatch(s, src) {
      var n := |src|;
      var last := LastOf(prev, s[..n]);
      var t := s[n..];
      BoundaryLast(last, t);
      assert AtomOk(src[0], s[0]) && AtomOk(src[n - 1], s[n - 1]);
      assert s[0] == src[0] by { assert src[0] != '.'; }
      assert last == Some(src[n - 1]) by {
        assert src[n - 1] != '.';
        assert s[..n][n - 1] == s[n - 1];
      }
      assert |t| > 0 ==> t[0] == s[n];
    }
  }

  /** A literal character `c` that is not a word character followed by
      `\bsrc\b`: the `\b` after `c` holds exactly when `src` starts, so
      the pattern matches where `c` and then `src` occur with no word
      character right after. */
  lemma PrefixedWordMatch(prev: Option<char>, s: string, c: char, src: string)
    requires c != '.' && !IsWordChar(c) && '.' !in src
    requires src != [] && IsWordChar(src[0]) && IsWordChar(src[|src| - 1])
    ensures MatchLen(prev, s, Atoms([c]) + WordPattern(src)).Some? <==>
      StartsWith(s, [c] + src) && (|s| == |src| + 1 || !IsWordChar(s[|src| + 1]))
  {
    AtomsMatch(prev, s, [c], WordPattern(src));
    DotMatchLiteral(s, [c]);
    StartsWithCons(s, c, src);
    if |s| > 0 && s[0] == c {
      var t := s[1..];
      assert s[..1] == [c] && s[|[c]|..] == t;
      WordPatternMatch(Some(c), t, src);
      DotMatchLiteral(t, src);
      if |t| > |src| {
        assert t[|src|] == s[|src| + 1];
      }
    }
  }

  /** A reference definition of the global `\bw\b` replacement: scanning
      left to right, an occurrence of `w` (a `.` of `w` standing for any
      character but a line break) with no word character on either side is
      replaced and skipped; elsewhere one character is copied. */
  function WordReplace(prev: Option<char>, s: string, w: string, rep: string): string
    requires w != []
    decreases |s|
  {
    if s == [] then []
    else if !WordBefore(prev) && DotMatch(s, w) && (|s| == |w| || !IsWordChar(s[|w|])) then
      rep + WordReplace(Some(s[|w| - 1]), s[|w|..], w, rep)
    else [s[0]] + WordReplace(Some(s[0]), s[1..], w, rep)
  }

  /** The global replacement of `\bw\b` is `WordReplace`. */
  lemma {:induction false} WordReplaceSpec(prev: Option<char>, s: string, w: string, rep: string)
    requires w != [] && IsWordChar(w[0]) && IsWordChar(w[|w| - 1])
    ensures ReplaceAllFrom(prev, s, WordPattern(w), rep) == WordReplace(prev, s, w, rep)
    decreases |s|
  {
    if s != [] {
      WordPatternMatch(prev, s, w);
      match MatchLen(prev, s, WordPattern(w))
      case Some(n) =>
        WordReplaceSpec(Some(s[n - 1]), s[n..], w, rep);
      case None =>
        WordReplaceSpec(Some(s[0]), s[1..], w, rep);
    }
  }

  /** A reference definition of the global `c\bw\b` replacement, for a
      literal `c` that is not a word character and a dot-free `w`: an
      occurrence of `c` and `w` with no word character after it is
      replaced and skipped; elsewhere one character is copied. */
  function PrefixedReplace(s: string, c: char, w: string, rep: string): string
    decreases |s|
  {
    if s == [] then []
    else if StartsWith(s, [c] + w) && (|s| == |w| + 1 || !IsWordChar(s[|w| + 1])) then
      rep + PrefixedReplace(s[|w| + 1..], c, w, rep)
    else [s[0]] + PrefixedReplace(s[1..], c, w, rep)
  }

  /** The global replacement of `c\bw\b` is `PrefixedReplace`, whatever
      comes before the input. */
  lemma {:induction false} PrefixedReplaceSpec(prev: Option<char>, s: string, c: char, w: string, rep: string)
    requires c != '.' && !IsWordChar(c) && '.' !in w
    requires w != [] && IsWordChar(w[0]) && IsWordChar(w[|w| - 1])
    ensures Width(Atoms([c]) + WordPattern(w)) == |w| + 1
    ensures ReplaceAllFrom(prev, s, Atoms([c]) + WordPattern(w), rep) == PrefixedReplace(s, c, w, rep)
    decreases |s|
  {
    var p := Atoms([c]) + WordPattern(w);
    WidthAppend(Atoms([c]), WordPattern(w));
    if s != [] {
      PrefixedWordMatch(prev, s, c, w);
      match MatchLen(prev, s, p)
      case Some(n) =>
        PrefixedReplaceSpec(Some(s[n - 1]), s[n..], c, w, rep);
      case None =>
        PrefixedReplaceSpec(Some(s[0]), s[1..], c, w, rep);
    }
  }

  /** A word occurring between two characters that are not word
      characters is replaced. */
  lemma WordReplaced(w: string, l: char, r: char, rep: string)
    requires w != [] && IsWordChar(w[0]) && IsWordChar(w[|w| - 1])
    requires !IsWordChar(l) && !IsWordChar(r)
    ensures WordReplace(None, [l] + w + [r], w, rep) == [l] + rep + [r]
  {
    var s := [l] + w + [r];
    assert !DotMatch(s, w) by {
      assert !AtomOk(w[0], s[0]);
    }
    var t := s[1..];
    assert t == w + [r];
    assert DotMatch(t, w) by {
      forall k | 0 <= k < |w| ensures AtomOk(w[k], t[k]) {
        assert t[k] == w[k];
      }
    }
    assert t[|w|] == r && t[|w|..] == [r] && t[|w| - 1] == w[|w| - 1];
    assert !WordBefore(Some(l));
    assert WordReplace(None, s, w, rep) == [l] + WordReplace(Some(l), t, w, rep);
    assert WordReplace(Some(l), t, w, rep) == rep + WordReplace(Some(w[|w| - 1]), [r], w, rep);
    assert !DotMatch([r], w) by {
      if |w| == 1 {
        assert !AtomOk(w[0], r);
      }
    }
    assert WordReplace(Some(w[|w| - 1]), [r], w, rep) == [r] + WordReplace(Some(r), [], w, rep);
  }

  /** `c` and a word followed by a character that is not a word character
      are replaced. */
  lemma PrefixedReplaced(c: char, w: string, r: char, rep: string)
    requires w != [] && !IsWordChar(r)
    ensures PrefixedReplace([c] + w + [r], c, w, rep) == rep + [r]
  {
    var s := [c] + w + [r];
    assert s[..|[c] + w|] == [c] + w;
    assert s[|w| + 1] == r && s[|w| + 1..] == [r];
    assert PrefixedReplace(s, c, w, rep) == rep + PrefixedReplace([r], c, w, rep);
    assert !StartsWith([r], [c] + w);
    assert PrefixedReplace([r], c, w, rep) == [r] + PrefixedReplace([], c, w, rep);
  }

  /** Where no match starts, the scan copies one character. */
  lemma ReplaceAllCopy(prev: Option<char>, s: string, p: Pattern, rep: string)
    requires Width(p) > 0 && s != [] && MatchLen(prev, s, p).None?
    ensures ReplaceAllFrom(prev, s, p, rep) == [s[0]] + ReplaceAllFrom(Some(s[0]), s[1..], p, rep)
  {
  }

  /** No match of `p` starts inside `u`, in `u + rest`, whatever the
      character before it. */
  ghost predicate Blocked(u: string, rest: string, p: Pattern) {
    forall j, prev: Option<char> :: 0 <= j < |u| ==> MatchLen(prev, (u + rest)[j..], p).None?
  }

  lemma BlockedTail(u: string, rest: string, p: Pattern)
    requires u != [] && Blocked(u, rest, p)
    ensures Blocked(u[1..], rest, p)
  {
    forall j, prev: Option<char> | 0 <= j < |u| - 1 ensures MatchLen(prev, (u[1..] + rest)[j..], p).None? {
      assert (u[1..] + rest)[j..] == (u + rest)[j + 1..];
    }
  }

  /** Scanning past a part `u` of the input in which no match starts
      copies `u` unchanged. */
  lemma {:induction false} ReplaceAllSkip(prev: Option<char>, u: string, rest: string, p: Pattern, rep: string)
    requires Width(p) > 0 && Blocked(u, rest, p)
    ensures ReplaceAllFrom(prev, u + rest, p, rep) == u + ReplaceAllFrom(LastOf(prev, u), rest, p, rep)
    decreases |u|
  {
    if u == [] {
      assert u + rest == rest;
    } else {
      var s := u + rest;
      var t := u[1..];
      assert MatchLen(prev, s, p).None? by {
        assert s[0..] == s;
      }
      ReplaceAllCopy(prev, s, p, rep);
      assert s[0] == u[0] && s[1..] == t + rest;
      BlockedTail(u, rest, p);
      ReplaceAllSkip(Some(u[0]), t, rest, p, rep);
      assert LastOf(Some(u[0]), t) == LastOf(prev, u);
      assert u == [u[0]] + t;
    }
  }

  /** A reference definition of replacing every occurrence of a literal
      text `w`, left to right and without overlap. */
  function ReplaceText(s: string, w: string, rep: string): string
    requires |w| > 0
    decreases |s|
  {
    if s == [] then []
    else if StartsWith(s, w) then rep + ReplaceText(s[|w|..], w, rep)
    else [s[0]] + ReplaceText(s[1..], w, rep)
  }

  /** The global replace with a literal pattern is `ReplaceText`, whatever
      character precedes the scan. */
  lemma {:induction false} LiteralReplace(prev: Option<char>, s: string, w: string, rep: string)
    requires |w| > 0 && '.' !in w
    ensures ReplaceAllFrom(prev, s, Atoms(w), rep) == ReplaceText(s, w, rep)
    decreases |s|
  {
    if s != [] {
      LiteralMatch(prev, s, w);
      if StartsWith(s, w) {
        LiteralReplace(Some(s[|w| - 1]), s[|w|..], w, rep);
      } else {
        LiteralReplace(Some(s[0]), s[1..], w, rep);
      }
    }
  }

  lemma LiteralReplaceGlobal(s: string, w: string, rep: string)
    requires |w| > 0 && '.' !in w
    ensures ReplaceGlobal(s, Atoms(w), rep) == ReplaceText(s, w, rep)
  {
    LiteralReplace(None, s, w, rep);
  }

  lemma {:induction false} ReplaceTextSkip(u: string, rest: string, w: string, rep: string)
    requires |w| > 0
    requires forall j :: 0 <= j < |u| ==> !StartsWith((u + rest)[j..], w)
    ensures ReplaceText(u + rest, w, rep) == u + ReplaceText(rest, w, rep)
    decreases |u|
  {
    if u == [] {
      assert u + rest == rest;
    } else {
      var s := u + rest;
      assert s[0..] == s;
      assert s[1..] == u[1..] + rest;
      forall j | 0 <= j < |u[1..]| ensures !StartsWith((u[1..] + rest)[j..], w) {
        assert (u[1..] + rest)[j..] == s[j + 1..];
      }
      ReplaceTextSkip(u[1..], rest, w, rep);
    }
  }

  lemma ReplaceTextHere(w: string, rest: string, rep: string)
    requires |w| > 0
    ensures ReplaceText(w + rest, w, rep) == rep + ReplaceText(rest, w, rep)
  {
    assert StartsWith(w + rest, w);
    assert (w + rest)[|w|..] == rest;
  }

  /** Replacing a single character distributes over concatenation. */
  lemma {:induction false} ReplaceCharAppend(a: string, b: string, c: char, rep: string)
    ensures ReplaceText(a + b, [c], rep) == ReplaceText(a, [c], rep) + ReplaceText(b, [c], rep)
  {
    if a == [] {
      assert a + b == b;
    } else {
      assert (a + b)[1..] == a[1..] + b;
      assert StartsWith(a + b, [c]) == StartsWith(a, [c]);
      ReplaceCharAppend(a[1..], b, c, rep);
    }
  }

  lemma {:induction false} ReplaceCharAbsent(s: string, c: char, rep: string)
    requires c !in s
    ensures ReplaceText(s, [c], rep) == s
  {
    if s != [] {
      assert s[0] != c;
      assert !StartsWith(s, [c]);
      ReplaceCharAbsent(s[1..], c, rep);
    }
  }

  /** Replacing a single character in a concatenation of chunks replaces it
      chunk by chunk. */
  lemma {:induction false} ReplaceCharConcatMap(f: char -> string, g: char -> string, s: string, c: char, rep: string)
    requires forall x :: ReplaceText(f(x), [c], rep) == g(x)
    ensures ReplaceText(ConcatMap(f, s), [c], rep) == ConcatMap(g, s)
  {
    if s != [] {
      ReplaceCharAppend(f(s[0]), ConcatMap(f, s[1..]), c, rep);
      ReplaceCharConcatMap(f, g, s[1..], c, rep);
    }
  }

  /** Replacing a character by a single character maps the string
      character by character. */
  lemma {:induction false} ReplaceCharPointwise(s: string, c: char, d: char)
    ensures var r := ReplaceText(s, [c], [d]);
      |r| == |s| && forall i :: 0 <= i < |s| ==> r[i] == if s[i] == c then d else s[i]
  {
    if s != [] {
      ReplaceCharPointwise(s[1..], c, d);
      assert StartsWith(s, [c]) <==> s[0] == c;
      assert s[1..] == s[|[c]|..];
    }
  }
  /** One `replace(/c/g, rep)` step over a concatenation of chunks in
      which `c` occurs only as the whole chunk of `c` itself. */
  lemma ReplaceCharStage(f: char -> string, s: string, c: char, rep: string)
    requires f(c) == [c]
    requires forall x :: x != c ==> c !in f(x)
    ensures ReplaceText(ConcatMap(f, s), [c], rep) == ConcatMap(x => if x == c then rep else f(x), s)
  {
    var g := x => if x == c then rep else f(x);
    forall x ensures ReplaceText(f(x), [c], rep) == g(x) {
      if x == c {
        ReplaceTextHere([c], [], rep);
        assert [c] + [] == [c];
      } else {
        ReplaceCharAbsent(f(x), c, rep);
      }
    }
    ReplaceCharConcatMap(f, g, s, c, rep);
  }
}
