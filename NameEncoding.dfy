/** The two page-name encoders of scripts/token-registry.ts: the URL path
    segment used to fetch a wiki page, and the base name of the markdown
    file it is written to. Each is `encodeURIComponent` followed by a fixed
    chain of global single-pattern replacements. */
module NameEncoding {
  import opened JsString
  import opened JsRegex
  import opened UriEncoding

  /** `tokenRegistryStringManipulation(name)`. */
  function TokenRegistryPath(name: string): string {
    var t := EncodeURIComponent(name);
    var t := ReplaceGlobal(t, Atoms("%20"), "-");
    var t := ReplaceGlobal(t, Atoms("("), "%28");
    ReplaceGlobal(t, Atoms(")"), "%29")
  }

  /** `markdownStringManipulation(name)`. */
  function MarkdownFileName(name: string): string {
    var t := EncodeURIComponent(name);
    var t := ReplaceGlobal(t, Atoms("%20"), "-");
    var t := ReplaceGlobal(t, Atoms("?"), "%3F");
    var t := ReplaceGlobal(t, Atoms("("), "");
    var t := ReplaceGlobal(t, Atoms(")"), "");
    ReplaceGlobal(t, Atoms("'"), "")
  }

  // ---- Reference definitions, character by character ----

  /** What a character becomes once `%20` has been turned into `-`. */
  function HyphenatedChar(c: char): string {
    if c == ' ' then "-" else EncodeChar(c)
  }

  /** What a character of the page name becomes in the URL path segment. */
  function PathChunk(c: char): string {
    if c == ' ' then "-"
    else if c == '(' then "%28"
    else if c == ')' then "%29"
    else EncodeChar(c)
  }

  /** What a character of the page name becomes in the file name. */
  function FileChunk(c: char): string {
    if c == ' ' then "-"
    else if c == '(' || c == ')' || c == '\'' then ""
    else EncodeChar(c)
  }

  // ---- The `%20` step lines up with the characters ----

  /** Reads as characters other than `%` and complete upper-case escapes
      `%XY`, none of which is the escape of `b`. */
  predicate EscapesAvoid(t: string, b: Byte)
    decreases |t|
  {
    || t == []
    || (t[0] != '%' && EscapesAvoid(t[1..], b))
    || (|t| >= 3 && t[0] == '%' && IsUpperHex(t[1]) && IsUpperHex(t[2]) &&
        t[..3] != PercentByte(b) && EscapesAvoid(t[3..], b))
  }

  /** In such a text the escape of `b` starts nowhere, whatever follows. */
  lemma {:induction false} EscapesAvoidAt(u: string, rest: string, b: Byte, j: nat)
    requires EscapesAvoid(u, b) && j < |u|
    ensures !StartsWith((u + rest)[j..], PercentByte(b))
    decreases |u|
  {
    var t := u + rest;
    var e := PercentByte(b);
    assert e[0] == '%';
    if u[0] != '%' && EscapesAvoid(u[1..], b) {
      if j == 0 {
        assert t[j..][0] == u[0];
      } else {
        EscapesAvoidAt(u[1..], rest, b, j - 1);
        assert (u[1..] + rest)[j - 1..] == t[j..];
      }
    } else {
      assert |u| >= 3 && u[0] == '%' && IsUpperHex(u[1]) && IsUpperHex(u[2]);
      assert u[..3] != e && EscapesAvoid(u[3..], b);
      if j == 0 {
        assert t[..3] == u[..3];
      } else if j < 3 {
        assert t[j..][0] == u[j];
      } else {
        EscapesAvoidAt(u[3..], rest, b, j - 3);
        assert (u[3..] + rest)[j - 3..] == t[j..];
      }
    }
  }

  lemma {:induction false} EscapesAvoidAppend(a: string, c: string, b: Byte)
    requires EscapesAvoid(a, b) && EscapesAvoid(c, b)
    ensures EscapesAvoid(a + c, b)
    decreases |a|
  {
    if a == [] {
      assert a + c == c;
    } else if a[0] != '%' && EscapesAvoid(a[1..], b) {
      EscapesAvoidAppend(a[1..], c, b);
      assert (a + c)[1..] == a[1..] + c;
    } else {
      EscapesAvoidAppend(a[3..], c, b);
      assert (a + c)[3..] == a[3..] + c;
      assert (a + c)[..3] == a[..3];
    }
  }

  lemma {:induction false} EscapesAvoidConcatMap(f: char -> string, s: string, b: Byte)
    requires forall x :: EscapesAvoid(f(x), b)
    ensures EscapesAvoid(ConcatMap(f, s), b)
  {
    if s != [] {
      EscapesAvoidConcatMap(f, s[1..], b);
      EscapesAvoidAppend(f(s[0]), ConcatMap(f, s[1..]), b);
    }
  }

  lemma PercentByteInjective(x: Byte, y: Byte)
    requires PercentByte(x) == PercentByte(y)
    ensures x == y
  {
    HexRoundTrip(x / 16);
    HexRoundTrip(y / 16);
    HexRoundTrip(x % 16);
    HexRoundTrip(y % 16);
    assert PercentByte(x)[1] == PercentByte(y)[1];
    assert PercentByte(x)[2] == PercentByte(y)[2];
  }

  lemma {:induction false} PercentBytesAvoid(bs: seq<Byte>, b: Byte)
    requires b !in bs
    ensures EscapesAvoid(PercentBytes(bs), b)
  {
    if bs != [] {
      var t := PercentBytes(bs);
      PercentBytesAvoid(bs[1..], b);
      assert t[..3] == PercentByte(bs[0]);
      assert t[3..] == PercentBytes(bs[1..]);
      if PercentByte(bs[0]) == PercentByte(b) {
        PercentByteInjective(bs[0], b);
      }
    }
  }

  /** An ASCII octet appears in a UTF-8 encoding only as the encoding of
      that very character. */
  lemma Utf8Ascii(c: char, b: Byte)
    requires b in Utf8(c) && b < 0x80
    ensures c as int == b
  {
  }

  /** The encoding of any character other than `chr` contains no escape of
      `chr`, for an ASCII `chr` that `encodeURIComponent` escapes. */
  lemma EncodeCharAvoids(c: char, chr: char)
    requires chr as int < 0x80 && chr != '%' && (IsUnescaped(chr) || c != chr)
    ensures EscapesAvoid(EncodeChar(c), chr as int)
  {
    if IsUnescaped(c) {
      assert EncodeChar(c)[1..] == [];
    } else {
      if chr as int in Utf8(c) {
        Utf8Ascii(c, chr as int);
      }
      PercentBytesAvoid(Utf8(c), chr as int);
    }
  }

  lemma SpaceEscape()
    ensures EncodeChar(' ') == PercentByte(0x20) == "%20"
  {
  }

  /** `encodeURIComponent` writes `%20` exactly for a space, so replacing
      every `%20` by `-` replaces exactly the spaces. */
  lemma {:induction false} SpacesToHyphens(s: string)
    ensures ReplaceText(EncodeURIComponent(s), "%20", "-") == ConcatMap(HyphenatedChar, s)
  {
    if s != [] {
      var rest := EncodeURIComponent(s[1..]);
      SpacesToHyphens(s[1..]);
      assert EncodeURIComponent(s) == EncodeChar(s[0]) + rest;
      SpaceEscape();
      if s[0] == ' ' {
        ReplaceTextHere("%20", rest, "-");
      } else {
        EncodeCharAvoids(s[0], ' ');
        forall j | 0 <= j < |EncodeChar(s[0])| ensures !StartsWith((EncodeChar(s[0]) + rest)[j..], "%20") {
          EscapesAvoidAt(EncodeChar(s[0]), rest, 0x20, j);
        }
        ReplaceTextSkip(EncodeChar(s[0]), rest, "%20", "-");
      }
    }
  }

  lemma EncodeCharLacks(c: char, x: char)
    requires !IsUnescaped(x) || x != c
    requires x != '%' && !IsUpperHex(x)
    ensures x !in EncodeChar(c)
  {
    if x in EncodeChar(c) {
      EncodeCharAlphabet(c, x);
    }
  }

  /** The stages after `%20`, each one a `replace(/c/g, rep)` of a single
      character, as their effect on one character of the page name. */
  function PathAfterOpen(c: char): string {
    if c == '(' then "%28" else HyphenatedChar(c)
  }

  function FileAfterOpen(c: char): string {
    if c == '(' then "" else HyphenatedChar(c)
  }

  function FileAfterClose(c: char): string {
    if c == ')' then "" else FileAfterOpen(c)
  }

  lemma HyphenatedLacks(x: char, c: char)
    requires c == '(' || c == ')' || c == '\'' || c == '?'
    requires x != c || c == '?'
    ensures c !in HyphenatedChar(x)
  {
    EncodeCharLacks(x, c);
  }

  /** One single-character stage: `ReplaceGlobal` on the concatenated
      chunks of `f` gives the concatenated chunks of `g`. */
  lemma CharStage(f: char -> string, g: char -> string, name: string, c: char, rep: string)
    requires c != '.' && f(c) == [c]
    requires forall x :: x != c ==> c !in f(x)
    requires forall x :: g(x) == if x == c then rep else f(x)
    ensures ReplaceGlobal(ConcatMap(f, name), Atoms([c]), rep) == ConcatMap(g, name)
  {
    LiteralReplaceGlobal(ConcatMap(f, name), [c], rep);
    ReplaceCharStage(f, name, c, rep);
    ConcatMapExt(x => if x == c then rep else f(x), g, name);
  }

  lemma SpaceStage(name: string)
    ensures ReplaceGlobal(EncodeURIComponent(name), Atoms("%20"), "-") == ConcatMap(HyphenatedChar, name)
  {
    LiteralReplaceGlobal(EncodeURIComponent(name), "%20", "-");
    SpacesToHyphens(name);
  }

  /** The URL path segment, character by character. */
  lemma TokenRegistryPathChunks(name: string)
    ensures TokenRegistryPath(name) == ConcatMap(PathChunk, name)
  {
    SpaceStage(name);
    forall x | x != '(' ensures '(' !in HyphenatedChar(x) {
      HyphenatedLacks(x, '(');
    }
    CharStage(HyphenatedChar, PathAfterOpen, name, '(', "%28");
    forall x | x != ')' ensures ')' !in PathAfterOpen(x) {
      HyphenatedLacks(x, ')');
    }
    CharStage(PathAfterOpen, PathChunk, name, ')', "%29");
  }

  /** `encodeURIComponent` already escapes `?`, so the `?` step of the
      file name changes nothing. */
  lemma QuestionStage(name: string)
    ensures var t := ConcatMap(HyphenatedChar, name);
      ReplaceGlobal(t, Atoms("?"), "%3F") == t
  {
    var t := ConcatMap(HyphenatedChar, name);
    forall x | x in name ensures '?' !in HyphenatedChar(x) {
      HyphenatedLacks(x, '?');
    }
    ConcatMapChars(HyphenatedChar, name, '?');
    LiteralReplaceGlobal(t, "?", "%3F");
    ReplaceCharAbsent(t, '?', "%3F");
  }

  lemma FileOpenStage(name: string)
    ensures ReplaceGlobal(ConcatMap(HyphenatedChar, name), Atoms("("), "") == ConcatMap(FileAfterOpen, name)
  {
    forall x | x != '(' ensures '(' !in HyphenatedChar(x) {
      HyphenatedLacks(x, '(');
    }
    CharStage(HyphenatedChar, FileAfterOpen, name, '(', "");
  }

  lemma FileCloseStage(name: string)
    ensures ReplaceGlobal(ConcatMap(FileAfterOpen, name), Atoms(")"), "") == ConcatMap(FileAfterClose, name)
  {
    forall x | x != ')' ensures ')' !in FileAfterOpen(x) {
      HyphenatedLacks(x, ')');
    }
    CharStage(FileAfterOpen, FileAfterClose, name, ')', "");
  }

  lemma FileQuoteStage(name: string)
    ensures ReplaceGlobal(ConcatMap(FileAfterClose, name), Atoms("'"), "") == ConcatMap(FileChunk, name)
  {
    forall x | x != '\'' ensures '\'' !in FileAfterClose(x) {
      HyphenatedLacks(x, '\'');
    }
    CharStage(FileAfterClose, FileChunk, name, '\'', "");
  }

  /** The file name, character by character. */
  lemma MarkdownFileNameChunks(name: string)
    ensures MarkdownFileName(name) == ConcatMap(FileChunk, name)
  {
    SpaceStage(name);
    QuestionStage(name);
    FileOpenStage(name);
    FileCloseStage(name);
    FileQuoteStage(name);
  }

  // ---- What the two encoders promise ----

  /** The URL path segment has no space and no parenthesis. */
  lemma TokenRegistryPathSafe(name: string)
    ensures var r := TokenRegistryPath(name); ' ' !in r && '(' !in r && ')' !in r
  {
    TokenRegistryPathChunks(name);
    forall x | x in name ensures ' ' !in PathChunk(x) && '(' !in PathChunk(x) && ')' !in PathChunk(x) {
      if x != ' ' && x != '(' && x != ')' {
        EncodeCharLacks(x, ' ');
        EncodeCharLacks(x, '(');
        EncodeCharLacks(x, ')');
      }
    }
    ConcatMapChars(PathChunk, name, ' ');
    ConcatMapChars(PathChunk, name, '(');
    ConcatMapChars(PathChunk, name, ')');
  }

  /** The file name has no space, parenthesis, apostrophe or `?`. */
  lemma MarkdownFileNameSafe(name: string)
    ensures var r := MarkdownFileName(name);
      ' ' !in r && '(' !in r && ')' !in r && '\'' !in r && '?' !in r
  {
    MarkdownFileNameChunks(name);
    forall x | x in name
      ensures var k := FileChunk(x); ' ' !in k && '(' !in k && ')' !in k && '\'' !in k && '?' !in k
    {
      if x != ' ' && x != '(' && x != ')' && x != '\'' {
        EncodeCharLacks(x, ' ');
        EncodeCharLacks(x, '(');
        EncodeCharLacks(x, ')');
        EncodeCharLacks(x, '\'');
        EncodeCharLacks(x, '?');
      }
    }
    ConcatMapChars(FileChunk, name, ' ');
    ConcatMapChars(FileChunk, name, '(');
    ConcatMapChars(FileChunk, name, ')');
    ConcatMapChars(FileChunk, name, '\'');
    ConcatMapChars(FileChunk, name, '?');
  }

  lemma FileChunkAvoids(x: char, chr: char)
    requires chr == '(' || chr == ')'
    ensures EscapesAvoid(FileChunk(x), chr as int)
  {
    if x == ' ' {
      assert FileChunk(x)[1..] == [];
    } else if x != '(' && x != ')' && x != '\'' {
      EncodeCharAvoids(x, chr);
    }
  }

  lemma AbsentEscape(r: string, b: Byte)
    requires EscapesAvoid(r, b)
    ensures Absent(r, PercentByte(b))
  {
    var e := PercentByte(b);
    forall j | 0 <= j <= |r| ensures !OccursAt(r, e, j) {
      if j < |r| {
        EscapesAvoidAt(r, [], b, j);
        assert r + [] == r;
      }
    }
  }

  lemma FileNameAvoids(name: string, chr: char)
    requires chr == '(' || chr == ')'
    ensures Absent(MarkdownFileName(name), PercentByte(chr as int))
  {
    MarkdownFileNameChunks(name);
    forall x ensures EscapesAvoid(FileChunk(x), chr as int) {
      FileChunkAvoids(x, chr);
    }
    EscapesAvoidConcatMap(FileChunk, name, chr as int);
    AbsentEscape(MarkdownFileName(name), chr as int);
  }

  /** Parentheses are dropped from the file name, not escaped: neither
      `%28` nor `%29` occurs in it. */
  lemma MarkdownFileNameNoParenEscapes(name: string)
    ensures Absent(MarkdownFileName(name), "%28") && Absent(MarkdownFileName(name), "%29")
  {
    FileNameAvoids(name, '(');
    FileNameAvoids(name, ')');
    assert PercentByte('(' as int) == "%28";
    assert PercentByte(')' as int) == "%29";
  }

  predicate IsAsciiAlnum(c: char) {
    'a' <= c <= 'z' || 'A' <= c <= 'Z' || '0' <= c <= '9'
  }

  function SpaceToHyphen(c: char): char {
    if c == ' ' then '-' else c
  }

  /** For a name of ASCII letters, digits and spaces, both encoders give
      the name with each space replaced by one `-`. */
  lemma PlainNames(name: string)
    requires forall i :: 0 <= i < |name| ==> IsAsciiAlnum(name[i]) || name[i] == ' '
    ensures var r := TokenRegistryPath(name);
      |r| == |name| && forall i :: 0 <= i < |name| ==> r[i] == SpaceToHyphen(name[i])
    ensures var r := MarkdownFileName(name);
      |r| == |name| && forall i :: 0 <= i < |name| ==> r[i] == SpaceToHyphen(name[i])
  {
    TokenRegistryPathChunks(name);
    MarkdownFileNameChunks(name);
    forall c | c in name ensures PathChunk(c) == [SpaceToHyphen(c)] && FileChunk(c) == [SpaceToHyphen(c)] {
      var i :| 0 <= i < |name| && name[i] == c;
    }
    ConcatMapPointwise(PathChunk, name, SpaceToHyphen);
    ConcatMapPointwise(FileChunk, name, SpaceToHyphen);
  }

  lemma ConcatMap3(f: char -> string, x: char, y: char, z: char)
    ensures ConcatMap(f, [x, y, z]) == f(x) + f(y) + f(z)
  {
    assert ConcatMap(f, [z]) == f(z) + ConcatMap(f, []) by { assert [z][1..] == []; }
    assert ConcatMap(f, [y, z]) == f(y) + ConcatMap(f, [z]) by { assert [y, z][1..] == [z]; }
    assert ConcatMap(f, [x, y, z]) == f(x) + ConcatMap(f, [y, z]) by { assert [x, y, z][1..] == [y, z]; }
  }

  /** `x y` and `x-y` share their URL path segment. */
  lemma PathsCollide(x: char, y: char)
    requires IsAsciiAlnum(x) && IsAsciiAlnum(y)
    ensures TokenRegistryPath([x, ' ', y]) == TokenRegistryPath([x, '-', y]) == [x, '-', y]
  {
    TokenRegistryPathChunks([x, ' ', y]);
    TokenRegistryPathChunks([x, '-', y]);
    ConcatMap3(PathChunk, x, ' ', y);
    ConcatMap3(PathChunk, x, '-', y);
    assert PathChunk(x) == [x] && PathChunk(y) == [y] && PathChunk('-') == "-";
  }

  /** `x y` and `x-y` share their file name. */
  lemma FilesCollide(x: char, y: char)
    requires IsAsciiAlnum(x) && IsAsciiAlnum(y)
    ensures MarkdownFileName([x, ' ', y]) == MarkdownFileName([x, '-', y]) == [x, '-', y]
  {
    MarkdownFileNameChunks([x, ' ', y]);
    MarkdownFileNameChunks([x, '-', y]);
    ConcatMap3(FileChunk, x, ' ', y);
    ConcatMap3(FileChunk, x, '-', y);
    assert FileChunk(x) == [x] && FileChunk(y) == [y] && FileChunk('-') == "-";
  }

  /** Two different page names can share a URL path segment and a file
      name: a space and a hyphen both end up as `-`, so `x y` and `x-y`
      (for letters or digits `x`, `y`) are fetched from the same place and
      written to the same file. */
  lemma NamesCollide(x: char, y: char)
    requires IsAsciiAlnum(x) && IsAsciiAlnum(y)
    ensures [x, ' ', y] != [x, '-', y]
    ensures TokenRegistryPath([x, ' ', y]) == TokenRegistryPath([x, '-', y]) == [x, '-', y]
    ensures MarkdownFileName([x, ' ', y]) == MarkdownFileName([x, '-', y]) == [x, '-', y]
  {
    assert [x, ' ', y][1] != [x, '-', y][1];
    PathsCollide(x, y);
    FilesCollide(x, y);
  }
}
