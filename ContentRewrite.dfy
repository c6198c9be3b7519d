/** The rewriting every wiki page gets before it is written out
    (`stringManipulation` and `injectAutogeneratedMessage` in
    scripts/token-registry.ts): one hard-coded link loses its parentheses
    and a notice naming the wiki page the text came from is appended. */
module ContentRewrite {
  import opened JsString
  import opened JsRegex

  /** The part both forms of the rewritten link share. */
  const LinkStem: string := "How-to-prepare-an-entry-" + "for-the-registry-"

  /** The one relative wiki link whose parentheses are removed. */
  const BrokenLink: string := LinkStem + "(" + "NA-policy-script" + ")"

  /** What `BrokenLink` becomes. */
  const FixedLink: string := LinkStem + "NA-policy-script"

  /** `path.basename(__filename)`, passed to `injectAutogeneratedMessage`
      and ignored there. */
  const ScriptName: string := "token-registry.ts"

  /** The fixed opening of the notice, in pieces short enough to reason
      about character by character. */
  const NoticeLead: string := "## Token Registry " + "Information  \n" + "This page was generated " + "automatically from: ["

  /** The notice that closes every generated wiki page; `trGithubWiki` is
      the wiki's address. */
  function AutogeneratedNotice(trGithubWiki: string, fileName: string): string {
    NoticeLead + trGithubWiki + "](" + trGithubWiki + "/" + fileName + ")."
  }

  /** `injectAutogeneratedMessage(content, file_name, path)`: the content,
      a line break and the notice. The `path` argument is not used. */
  function InjectAutogeneratedMessage(content: string, fileName: string, path: string, trGithubWiki: string): (r: string)
    ensures StartsWith(r, content + "\n")
    ensures r[|content| + 1..] == AutogeneratedNotice(trGithubWiki, fileName)
  {
    var r := content + "\n" + AutogeneratedNotice(trGithubWiki, fileName);
    assert r[..|content| + 1] == content + "\n";
    r
  }

  /** `stringManipulation(content, file_name)`: the first occurrence of
      `BrokenLink` becomes `FixedLink`, then the notice is appended. */
  function StringManipulation(content: string, fileName: string, trGithubWiki: string): string {
    InjectAutogeneratedMessage(ReplaceFirst(content, BrokenLink, FixedLink), fileName, ScriptName, trGithubWiki)
  }

  /** The notice is a markdown heading. */
  lemma NoticeIsHeading(trGithubWiki: string, fileName: string)
    ensures var n := AutogeneratedNotice(trGithubWiki, fileName); |n| > 0 && n[0] == '#'
  {
  }

  /** A page is its rewritten content, a line break and the notice. */
  lemma StringManipulationShape(content: string, fileName: string, trGithubWiki: string)
    ensures StringManipulation(content, fileName, trGithubWiki)
      == ReplaceFirst(content, BrokenLink, FixedLink) + "\n" + AutogeneratedNotice(trGithubWiki, fileName)
  {
    var r := ReplaceFirst(content, BrokenLink, FixedLink);
    var m := InjectAutogeneratedMessage(r, fileName, ScriptName, trGithubWiki);
    assert m[..|r| + 1] == r + "\n";
  }

  /** The notice does not depend on the unused `path` argument. */
  lemma AutogeneratedMessageIgnoresPath(content: string, fileName: string, p1: string, p2: string, trGithubWiki: string)
    ensures InjectAutogeneratedMessage(content, fileName, p1, trGithubWiki)
         == InjectAutogeneratedMessage(content, fileName, p2, trGithubWiki)
  {
  }

  /** The final text names the wiki page the content was fetched from. */
  lemma AutogeneratedNoticeNamesSource(trGithubWiki: string, fileName: string)
    ensures var n := AutogeneratedNotice(trGithubWiki, fileName);
      var link := "[" + trGithubWiki + "](" + trGithubWiki + "/" + fileName + ").";
      |link| <= |n| && n[|n| - |link|..] == link
  {
    var head := "## Token Registry " + "Information  \n" + "This page was generated " + "automatically from: ";
    var link := "[" + trGithubWiki + "](" + trGithubWiki + "/" + fileName + ").";
    assert NoticeLead == head + "[";
    assert AutogeneratedNotice(trGithubWiki, fileName) == head + link;
  }

  /** What a wiki page turns into: without the broken link it is kept as
      it is; otherwise exactly its first occurrence is replaced by the
      fixed link. Either way the notice follows a line break. */
  lemma StringManipulationSpec(content: string, fileName: string, trGithubWiki: string)
    ensures Absent(content, BrokenLink) ==>
      StringManipulation(content, fileName, trGithubWiki) == content + "\n" + AutogeneratedNotice(trGithubWiki, fileName)
    ensures forall i: nat :: OccursAt(content, BrokenLink, i) && (forall j :: 0 <= j < i ==> !OccursAt(content, BrokenLink, j)) ==>
      StringManipulation(content, fileName, trGithubWiki)
        == content[..i] + FixedLink + content[i + |BrokenLink|..] + "\n" + AutogeneratedNotice(trGithubWiki, fileName)
  {
    ReplaceFirstSpec(content, BrokenLink, FixedLink);
    StringManipulationShape(content, fileName, trGithubWiki);
  }

  lemma StemClean1() ensures '(' !in "How-to-prepare-an-entry-" && ')' !in "How-to-prepare-an-entry-" { }
  lemma StemClean2() ensures '(' !in "for-the-registry-" && ')' !in "for-the-registry-" { }
  lemma StemClean3() ensures '(' !in "NA-policy-script" && ')' !in "NA-policy-script" { }

  /** `c` alone is replaced by `rep`. */
  lemma ReplaceCharSelf(c: char, rep: string)
    ensures ReplaceText([c], [c], rep) == rep
  {
    ReplaceTextHere([c], [], rep);
    assert [c] + [] == [c];
  }

  /** Deleting the one `c` of `x + [c] + y`. */
  lemma DropChar(x: string, c: char, y: string)
    requires c !in x && c !in y
    ensures ReplaceText(x + [c] + y, [c], "") == x + y
  {
    var a := x + [c];
    assert ReplaceText(a, [c], "") == x by {
      ReplaceCharAppend(x, [c], c, "");
      ReplaceCharAbsent(x, c, "");
      ReplaceCharSelf(c, "");
    }
    assert ReplaceText(y, [c], "") == y by {
      ReplaceCharAbsent(y, c, "");
    }
    ReplaceCharAppend(a, y, c, "");
  }

  /** Deleting the `(` from `stem(tail)`. */
  lemma DropOpening(stem: string, tail: string)
    requires '(' !in stem && '(' !in tail
    ensures ReplaceText(stem + "(" + tail + ")", "(", "") == stem + tail + ")"
  {
    assert stem + "(" + tail + ")" == stem + ['('] + (tail + ")");
    DropChar(stem, '(', tail + ")");
  }

  /** Deleting the `)` that ends `stem + tail + ")"`. */
  lemma DropClosing(stem: string, tail: string)
    requires ')' !in stem && ')' !in tail
    ensures ReplaceText(stem + tail + ")", ")", "") == stem + tail
  {
    assert stem + tail + ")" == (stem + tail) + [')'] + [];
    DropChar(stem + tail, ')', []);
  }

  /** The fixed link is the broken one with its parentheses deleted, which
      is what the comment on the rewrite asks for. */
  lemma FixedLinkDropsParentheses()
    ensures FixedLink == ReplaceText(ReplaceText(BrokenLink, "(", ""), ")", "")
  {
    StemClean1();
    StemClean2();
    StemClean3();
    DropOpening(LinkStem, "NA-policy-script");
    DropClosing(LinkStem, "NA-policy-script");
  }
}
