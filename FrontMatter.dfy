/** The Docusaurus front matter put on every wiki page
    (`sidebarPosition` and `injectDocusaurusDocTags` in
    scripts/token-registry.ts). */
module FrontMatter {
  import opened JsString
  import opened JsRegex

  // The three wiki pages with a fixed place in the sidebar.
  const NaPolicyPage: string := "How to prepare an entry " + "for the registry " + "(NA policy script)"
  const PlutusPage: string := "How to prepare an entry " + "for the registry " + "(Plutus script)"
  const SubmitPage: string := "How to submit an entry " + "to the registry"

  /** The sidebar places, as a table. */
  const Positions: map<string, nat> := map[NaPolicyPage := 2, PlutusPage := 3, SubmitPage := 4]

  /** `sidebarPosition(file_name)`: a front-matter line for the three
      pages above, nothing for any other page (which Docusaurus then
      orders alphabetically). */
  function SidebarPosition(fileName: string): string {
    if fileName == NaPolicyPage then "sidebar_position: 2\n"
    else if fileName == PlutusPage then "sidebar_position: 3\n"
    else if fileName == SubmitPage then "sidebar_position: 4\n"
    else ""
  }

  /** The front-matter line giving place `k` (a single digit). */
  function PositionLine(k: nat): string
    requires k < 10
  {
    "sidebar_position: " + [(('0' as int) + k) as char] + "\n"
  }

  lemma PagesDistinct()
    ensures NaPolicyPage != PlutusPage && NaPolicyPage != SubmitPage && PlutusPage != SubmitPage
  {
    assert |NaPolicyPage| == 59 && |PlutusPage| == 56 && |SubmitPage| == 38;
  }

  /** `SidebarPosition` is the table: a page in it gets the line for its
      place, every other page gets nothing. */
  lemma SidebarPositionTable(fileName: string)
    ensures fileName in Positions ==> Positions[fileName] < 10 && SidebarPosition(fileName) == PositionLine(Positions[fileName])
    ensures fileName !in Positions ==> SidebarPosition(fileName) == ""
  {
    PagesDistinct();
    if fileName == NaPolicyPage {
      assert Positions[fileName] == 2;
    } else if fileName == PlutusPage {
      assert Positions[fileName] == 3;
    } else if fileName == SubmitPage {
      assert Positions[fileName] == 4;
    }
  }

  /** The sidebar line appears exactly for the pages in the table. */
  lemma SidebarPositionPresent(fileName: string)
    ensures SidebarPosition(fileName) != "" <==> fileName in Positions
  {
    SidebarPositionTable(fileName);
  }

  /** `content.substring(0, 3) === "---" ? content.slice(3) : content`. */
  function StripLeadingFence(content: string): (r: string)
    ensures StartsWith(content, "---") ==> content == "---" + r
    ensures !StartsWith(content, "---") ==> r == content
  {
    if StartsWith(content, "---") then content[3..] else content
  }

  /** `file_name.replace(/[-]/gm, " ")`. */
  function SidebarLabel(fileName: string): string {
    ReplaceGlobal(fileName, Atoms("-"), " ")
  }

  /** Every `-` of the name becomes a space, nothing else changes. */
  lemma SidebarLabelSpec(fileName: string)
    ensures var l := SidebarLabel(fileName);
      |l| == |fileName| && forall i :: 0 <= i < |fileName| ==> l[i] == if fileName[i] == '-' then ' ' else fileName[i]
  {
    LiteralReplaceGlobal(fileName, "-", " ");
    ReplaceCharPointwise(fileName, '-', ' ');
  }

  /** `injectDocusaurusDocTags(content, file_name)`: a leading `---` of the
      content is dropped and a front-matter block with the sidebar label,
      the edit link `customEditUrl`, the title and the optional sidebar
      place goes in front. */
  function InjectDocusaurusDocTags(content: string, fileName: string, customEditUrl: string): string {
    LabelLine(fileName) + customEditUrl + TitleLine(fileName) + SidebarPosition(fileName)
      + ("--- " + "\n" + StripLeadingFence(content))
  }

  /** The opening fence and the sidebar label. */
  function LabelLine(fileName: string): string {
    "--- \nsidebar_label: " + SidebarLabel(fileName)
  }

  /** The title line, which ends the edit link's line. */
  function TitleLine(fileName: string): string {
    "\ntitle: " + fileName + "\n"
  }

  /** The layout of a page's front matter: the label line opens it, the
      title line follows the edit link, the sidebar place (if any) comes
      next, then the closing `--- ` line and the content without its
      leading `---`. */
  lemma DocTagsLayout(content: string, fileName: string, customEditUrl: string)
    ensures var r := InjectDocusaurusDocTags(content, fileName, customEditUrl);
      var a := "--- \nsidebar_label: " + SidebarLabel(fileName);
      var k := |a| + |customEditUrl|;
      var t := "\ntitle: " + fileName + "\n";
      var pos := SidebarPosition(fileName);
      var tail := "--- \n" + StripLeadingFence(content);
      StartsWith(r, a) && r[|a|..k] == customEditUrl && OccursAt(r, t, k) && OccursAt(r, pos, k + |t|)
      && |r| == k + |t| + |pos| + |tail| && r[k + |t| + |pos|..] == tail
  {
    assert "--- " + "\n" == "--- \n";
    Segments(LabelLine(fileName), customEditUrl, TitleLine(fileName), SidebarPosition(fileName),
      "--- " + "\n" + StripLeadingFence(content));
  }

  /** The page starts with its label line. */
  lemma DocTagsStart(content: string, fileName: string, customEditUrl: string)
    ensures StartsWith(InjectDocusaurusDocTags(content, fileName, customEditUrl), LabelLine(fileName))
  {
    var a := LabelLine(fileName);
    var r := InjectDocusaurusDocTags(content, fileName, customEditUrl);
    assert r[..|a|] == a;
  }

  /** The page ends with the content, less a leading `---`. */
  lemma DocTagsTail(content: string, fileName: string, customEditUrl: string)
    ensures EndsWith(InjectDocusaurusDocTags(content, fileName, customEditUrl), StripLeadingFence(content))
  {
    var s := StripLeadingFence(content);
    var h := LabelLine(fileName) + customEditUrl + TitleLine(fileName) + SidebarPosition(fileName) + ("--- " + "\n");
    assert InjectDocusaurusDocTags(content, fileName, customEditUrl) == h + s;
    EndsWithAppend(h, s);
  }

  /** Where the parts of a five-part concatenation sit. */
  lemma Segments(a: string, b: string, c: string, d: string, e: string)
    ensures var r := a + b + c + d + e;
      StartsWith(r, a) && r[|a|..|a| + |b|] == b
      && OccursAt(r, c, |a| + |b|) && OccursAt(r, d, |a| + |b| + |c|)
      && |r| == |a| + |b| + |c| + |d| + |e| && r[|a| + |b| + |c| + |d|..] == e
  {
    var r := a + b + c + d + e;
    assert r[..|a|] == a;
    assert r[|a|..|a| + |b|] == b;
    assert r[|a| + |b|..|a| + |b| + |c|] == c;
    assert r[|a| + |b| + |c|..|a| + |b| + |c| + |d|] == d;
  }

  /** A page's content that already starts a front-matter fence loses
      exactly those three characters, and no other content is touched. */
  lemma StripLeadingFenceOnce(content: string)
    ensures StripLeadingFence("---" + content) == content
    ensures !StartsWith(content, "---") ==> StripLeadingFence(content) == content
  {
    assert ("---" + content)[..3] == "---";
    assert ("---" + content)[3..] == content;
  }
}
