/** What `main` of scripts/token-registry.ts writes, given what it
    downloads: the overview file, then one markdown file per page linked
    from the wiki's home page. The network and the file system are left
    out; a download is the function `fetch` from a URL to the text served
    there, the same text each time. */
module Pipeline {
  import opened JsString
  import opened NameEncoding
  import opened ContentRewrite
  import opened Overview
  import opened FrontMatter
  import opened LinkDiscovery

  /** The values scripts/constants.ts supplies (`tr_docs_path`, `tr_url`,
      `tr_overview_url`, `tr_raw_wiki_url`, `tr_github_wiki`,
      `custom_edit_url`). */
  datatype Settings = Settings(
    docsPath: string, trUrl: string, overviewUrl: string,
    rawWikiUrl: string, githubWiki: string, customEditUrl: string)

  /** One `fs.writeFileSync(path, text)`. */
  datatype Written = Written(path: string, text: string)

  /** Where the wiki's home page is downloaded from. */
  function HomeUrl(st: Settings): string {
    st.rawWikiUrl + "Home.md"
  }

  /** Where the wiki page `name` is downloaded from. */
  function PageUrl(st: Settings, name: string): string {
    st.rawWikiUrl + TokenRegistryPath(name) + ".md"
  }

  /** Where the page `name` is written to. */
  function PageFile(st: Settings, name: string): string {
    st.docsPath + "/" + MarkdownFileName(name) + ".md"
  }

  /** Where the overview is written to. */
  function OverviewFile(st: Settings): string {
    st.docsPath + "/" + "Overview.md"
  }

  /** The file written for the wiki page `name` whose text is `body`. */
  function RenderPage(st: Settings, name: string, body: string): Written {
    var manipulated := StringManipulation(body, TokenRegistryPath(name), st.githubWiki);
    Written(PageFile(st, name), InjectDocusaurusDocTags(manipulated, name, st.customEditUrl))
  }

  /** The page files, one per name, in the order of `names`. */
  function Pages(st: Settings, names: seq<string>, fetch: string -> string): seq<Written> {
    seq(|names|, k requires 0 <= k < |names| => RenderPage(st, names[k], fetch(PageUrl(st, names[k]))))
  }

  /** The overview file, made from the README downloaded from
      `overviewUrl` (`getOverviewMarkdown`); `main` writes it first. */
  function OverviewWritten(st: Settings, fetch: string -> string): Written {
    Written(OverviewFile(st), OverviewStringManipulation(fetch(st.overviewUrl), st.trUrl))
  }

  /** The page files `main` writes after the overview, one for each page
      named on the home page downloaded from `HomeUrl`. */
  function PageWrites(st: Settings, fetch: string -> string): seq<Written> {
    Pages(st, LinkNames(fetch(HomeUrl(st))), fetch)
  }

  /** The overview file holds the fixed header, the trimmed README with
      absolute links, and the footer. */
  lemma OverviewOutput(st: Settings, fetch: string -> string)
    ensures var w := OverviewWritten(st, fetch);
      var readme := fetch(st.overviewUrl);
      w.path == OverviewFile(st)
      && w.text == OverviewHeader + AbsoluteLinks(OverviewBody(readme), st.trUrl) + OverviewFooter(st.trUrl)
  {
    OverviewShape(fetch(st.overviewUrl), st.trUrl);
  }

  /** The `k`-th page file is the one for the `k`-th name. */
  lemma PagesAt(st: Settings, names: seq<string>, fetch: string -> string, k: nat)
    requires k < |names|
    ensures |Pages(st, names, fetch)| == |names|
    ensures Pages(st, names, fetch)[k] == RenderPage(st, names[k], fetch(PageUrl(st, names[k])))
  {
  }

  /** One page file for each page named on the home page, each name once
      and in the order the names first appear there, each rendered from the
      text at its URL. */
  lemma PageOutputs(st: Settings, fetch: string -> string)
    ensures var home := fetch(HomeUrl(st));
      var out := PageWrites(st, fetch);
      var names := LinkNames(home);
      |out| == |names| && NoDup(names)
      && (forall x :: x in names <==> x in MatchesFrom(home, 0))
      && InFirstOrder(MatchesFrom(home, 0), names)
      && forall k :: 0 <= k < |names| ==>
           out[k] == RenderPage(st, names[k], fetch(PageUrl(st, names[k])))
  {
    var home := fetch(HomeUrl(st));
    var names := LinkNames(home);
    LinkNamesSpec(home);
    forall k | 0 <= k < |names| ensures PageWrites(st, fetch)[k] == RenderPage(st, names[k], fetch(PageUrl(st, names[k]))) {
      PagesAt(st, names, fetch, k);
    }
  }

  /** `StringManipulation`'s text begins with `---` only when the rewritten
      content does, so stripping the fence leaves the notice in place. */
  lemma StripKeepsNotice(c: string, notice: string)
    requires |notice| > 0 && notice[0] == '#'
    ensures EndsWith(StripLeadingFence(c + "\n" + notice), notice)
  {
    var m := c + "\n" + notice;
    var s := StripLeadingFence(m);
    if StartsWith(m, "---") {
      assert m[|c|] == '\n';
      assert m[0] == '-' && m[1] == '-' && m[2] == '-';
      assert |c| >= 3;
      assert s == m[3..];
      assert s == c[3..] + "\n" + notice;
    } else {
      assert s == m;
    }
    EndsWithAppend(s[..|s| - |notice|], notice);
    assert s[..|s| - |notice|] + notice == s;
  }

  /** A page file: its front matter opens with the sidebar label, and its
      text ends with the notice that links to the wiki page it was made
      from; the file name is the markdown-safe form of the page name. */
  lemma RenderPageSpec(st: Settings, name: string, body: string)
    ensures var p := RenderPage(st, name, body);
      p.path == st.docsPath + "/" + MarkdownFileName(name) + ".md"
      && StartsWith(p.text, "--- \nsidebar_label: " + SidebarLabel(name))
      && EndsWith(p.text, AutogeneratedNotice(st.githubWiki, TokenRegistryPath(name)))
  {
    var path := TokenRegistryPath(name);
    var m := StringManipulation(body, path, st.githubWiki);
    DocTagsStart(m, name, st.customEditUrl);
    RenderedNotice(body, name, path, st.githubWiki, st.customEditUrl);
  }

  /** The doc tags keep the notice `StringManipulation` ends the page with. */
  lemma RenderedNotice(body: string, name: string, path: string, githubWiki: string, customEditUrl: string)
    ensures EndsWith(InjectDocusaurusDocTags(StringManipulation(body, path, githubWiki), name, customEditUrl),
      AutogeneratedNotice(githubWiki, path))
  {
    var n := AutogeneratedNotice(githubWiki, path);
    var c := ReplaceFirst(body, BrokenLink, FixedLink);
    StringManipulationShape(body, path, githubWiki);
    NoticeIsHeading(githubWiki, path);
    DocTagsKeepNotice(c, n, name, customEditUrl);
  }

  /** The front matter goes in front of a text that ends with a heading,
      and the heading stays at the end. */
  lemma DocTagsKeepNotice(c: string, n: string, name: string, customEditUrl: string)
    requires |n| > 0 && n[0] == '#'
    ensures EndsWith(InjectDocusaurusDocTags(c + "\n" + n, name, customEditUrl), n)
  {
    var m := c + "\n" + n;
    StripKeepsNotice(c, n);
    DocTagsTail(m, name, customEditUrl);
    EndsWithTrans(InjectDocusaurusDocTags(m, name, customEditUrl), StripLeadingFence(m), n);
  }

  /** The page name `Overview`. */
  const OverviewPage: string := "Over" + "view"

  /** A wiki page called `Overview` is written to the overview's file and
      so replaces the overview written before it. */
  lemma OverviewPageCollides(st: Settings)
    ensures PageFile(st, OverviewPage) == OverviewFile(st)
  {
    assert forall i :: 0 <= i < |OverviewPage| ==> IsAsciiAlnum(OverviewPage[i]);
    PlainNames(OverviewPage);
    assert MarkdownFileName(OverviewPage) == OverviewPage;
  }
}
