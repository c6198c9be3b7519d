/** The overview page (`overviewStringManipulation` in
    scripts/token-registry.ts): the repository README gets Docusaurus front
    matter and an introduction in front, loses its top heading and
    everything from the step-by-step section on, has three relative links
    made absolute and gets a notice at the end. */
module Overview {
  import opened Wrappers
  import opened JsString
  import opened JsRegex

  // The text put in front of the README, line by line. Each literal is
  // kept short so that facts about its characters stay cheap to prove.
  const Fence: string := "--- \n"
  const IdLine: string := "id: cardano-" + "token-registry \n"
  const TitleLine: string := "title: Cardano " + "Token Registry \n"
  const LabelLine: string := "sidebar_label: " + "Overview \n"
  const DescriptionLine: string := "description: The Cardano " + "Token Registry provides " + "a means to register " + "off-chain token metadata " + "that can map to on-chain " + "identifiers. \n"
  const ImageLine: string := "image: /img/og/" + "og-developer-portal.png \n"
  const PositionLine: string := "sidebar_position: 1 \n"
  const IntroLead: string := "The [Cardano Token " + "Registry]"
  const IntroLink: string := "https://github.com/" + "cardano-foundation/" + "cardano-token-registry) " + "provides a means to " + "register off-chain token " + "metadata to map to " + "on-chain identifiers "
  const IntroAside: string := "typically hashes " + "representing asset IDs, " + "output locking scripts, " + "or token forging " + "policies).\n\n"

  const FrontMatter: string :=
    Fence + IdLine + TitleLine + LabelLine + DescriptionLine + ImageLine + PositionLine + Fence
  const Introduction: string := IntroLead + "(" + IntroLink + "(" + IntroAside

  /** `extra_content`: front matter, then the introductory paragraph. */
  const OverviewHeader: string := FrontMatter + Introduction

  /** The README's own top heading, removed (first occurrence only). */
  const PackageHeading: string := "# cardano-token-registry"

  /** Everything from this heading on is dropped. */
  const StepByStepHeading: string := "## Step-by-Step"

  // The link targets, written as name plus extension. (A single literal
  // would work as well; a concatenation keeps the verifier from evaluating
  // the patterns built from them character by character.)
  const RegistryTerms: string := "Registry_Terms_of_Use" + ".md"
  const ApiTerms: string := "API_Terms_of_Use" + ".md"
  const Mappings: string := "map" + "pings"

  /** `/\bRegistry_Terms_of_Use.md\b/g`. */
  const RegistryTermsPattern: Pattern := WordPattern(RegistryTerms)

  /** `/\bAPI_Terms_of_Use.md\b/g`. */
  const ApiTermsPattern: Pattern := WordPattern(ApiTerms)

  /** `/\(\bmappings\b/g`. */
  const MappingsPattern: Pattern := Atoms("(") + WordPattern(Mappings)

  lemma PatternWidths()
    ensures Width(RegistryTermsPattern) == 24 && Width(ApiTermsPattern) == 19 && Width(MappingsPattern) == 9
  {
    WidthAppend(Atoms("("), WordPattern(Mappings));
  }

  /** The three `replace(/…/g, …)` calls of lines 116-124, each scanning
      its whole input; `prev` is the character before the input, `None` at
      the start of the text. `trUrl` is the registry's repository
      address. */
  function LinksFrom(prev: Option<char>, s: string, trUrl: string): string {
    PatternWidths();
    var a := ReplaceAllFrom(prev, s, RegistryTermsPattern, trUrl + RegistryTerms);
    var b := ReplaceAllFrom(prev, a, ApiTermsPattern, trUrl + ApiTerms);
    ReplaceAllFrom(prev, b, MappingsPattern, "(" + trUrl + Mappings)
  }

  /** Relative links to the two terms-of-use files and to the `mappings`
      directory made absolute. */
  function AbsoluteLinks(s: string, trUrl: string): string {
    LinksFrom(None, s, trUrl)
  }

  /** The README after line 113: header prepended, the package heading
      removed, cut before the step-by-step section. */
  function TruncatedOverview(content: string): string {
    SplitFirst(ReplaceFirst(OverviewHeader + content, PackageHeading, ""), StepByStepHeading)
  }

  /** The same cut applied to the README alone. */
  function OverviewBody(content: string): string {
    SplitFirst(ReplaceFirst(content, PackageHeading, ""), StepByStepHeading)
  }

  function OverviewFooter(trUrl: string): string {
    "  \n## Token Registry Information  \nThis page was generated automatically from: ["
      + trUrl + "](" + trUrl + "/" + "README.md" + ")."
  }

  /** `overviewStringManipulation(content)`. */
  function OverviewStringManipulation(content: string, trUrl: string): string {
    AbsoluteLinks(TruncatedOverview(content), trUrl) + OverviewFooter(trUrl)
  }

  // ---------------------------------------------------------------------
  // Character facts about the header.

  predicate Safe(c: char) {
    c != '#' && c != 'U' && c != '('
  }

  predicate Clean(s: string) {
    forall i :: 0 <= i < |s| ==> Safe(s[i])
  }

  /** No `#`, no `U`, and no `(` followed by `m`: no first character of the
      headings, no match of the three link patterns can start in it. */
  predicate Plain(h: string) {
    forall i :: 0 <= i < |h| ==> PlainAt(h, i)
  }

  predicate PlainAt(h: string, i: int)
    requires 0 <= i < |h|
  {
    h[i] != '#' && h[i] != 'U' && (h[i] == '(' ==> i + 1 < |h| && h[i + 1] != 'm')
  }

  lemma FenceClean() ensures Clean(Fence) { }
  lemma IdLineClean1() ensures Clean("id: cardano-") { }
  lemma IdLineClean2() ensures Clean("token-registry \n") { }
  lemma IdLineClean() ensures Clean(IdLine) {
    IdLineClean1();
    IdLineClean2();
  }
  lemma TitleLineClean1() ensures Clean("title: Cardano ") { }
  lemma TitleLineClean2() ensures Clean("Token Registry \n") { }
  lemma TitleLineClean() ensures Clean(TitleLine) {
    TitleLineClean1();
    TitleLineClean2();
  }
  lemma LabelLineClean1() ensures Clean("sidebar_label: ") { }
  lemma LabelLineClean2() ensures Clean("Overview \n") { }
  lemma LabelLineClean() ensures Clean(LabelLine) {
    LabelLineClean1();
    LabelLineClean2();
  }
  lemma DescriptionLineClean1() ensures Clean("description: The Cardano ") { }
  lemma DescriptionLineClean2() ensures Clean("Token Registry provides ") { }
  lemma DescriptionLineClean3() ensures Clean("a means to register ") { }
  lemma DescriptionLineClean4() ensures Clean("off-chain token metadata ") { }
  lemma DescriptionLineClean5() ensures Clean("that can map to on-chain ") { }
  lemma DescriptionLineClean6() ensures Clean("identifiers. \n") { }
  lemma DescriptionLineClean() ensures Clean(DescriptionLine) {
    DescriptionLineClean1();
    DescriptionLineClean2();
    DescriptionLineClean3();
    DescriptionLineClean4();
    DescriptionLineClean5();
    DescriptionLineClean6();
  }
  lemma ImageLineClean1() ensures Clean("image: /img/og/") { }
  lemma ImageLineClean2() ensures Clean("og-developer-portal.png \n") { }
  lemma ImageLineClean() ensures Clean(ImageLine) {
    ImageLineClean1();
    ImageLineClean2();
  }
  lemma PositionLineClean() ensures Clean(PositionLine) { }
  lemma IntroLeadClean1() ensures Clean("The [Cardano Token ") { }
  lemma IntroLeadClean2() ensures Clean("Registry]") { }
  lemma IntroLeadClean() ensures Clean(IntroLead) {
    IntroLeadClean1();
    IntroLeadClean2();
  }
  lemma IntroLinkClean1() ensures Clean("https://github.com/") { }
  lemma IntroLinkClean2() ensures Clean("cardano-foundation/") { }
  lemma IntroLinkClean3() ensures Clean("cardano-token-registry) ") { }
  lemma IntroLinkClean4() ensures Clean("provides a means to ") { }
  lemma IntroLinkClean5() ensures Clean("register off-chain token ") { }
  lemma IntroLinkClean6() ensures Clean("metadata to map to ") { }
  lemma IntroLinkClean7() ensures Clean("on-chain identifiers ") { }
  lemma IntroLinkClean() ensures Clean(IntroLink) {
    IntroLinkClean1();
    IntroLinkClean2();
    IntroLinkClean3();
    IntroLinkClean4();
    IntroLinkClean5();
    IntroLinkClean6();
    IntroLinkClean7();
  }
  lemma IntroAsideClean1() ensures Clean("typically hashes ") { }
  lemma IntroAsideClean2() ensures Clean("representing asset IDs, ") { }
  lemma IntroAsideClean3() ensures Clean("output locking scripts, ") { }
  lemma IntroAsideClean4() ensures Clean("or token forging ") { }
  lemma IntroAsideClean5() ensures Clean("policies).\n\n") { }
  lemma IntroAsideClean() ensures Clean(IntroAside) {
    IntroAsideClean1();
    IntroAsideClean2();
    IntroAsideClean3();
    IntroAsideClean4();
    IntroAsideClean5();
  }

  lemma FrontMatterClean()
    ensures Clean(FrontMatter)
  {
    FenceClean();
    IdLineClean();
    TitleLineClean();
    LabelLineClean();
    DescriptionLineClean();
    ImageLineClean();
    PositionLineClean();
  }

  lemma PlainAppend(a: string, b: string)
    requires Plain(a) && Plain(b)
    ensures Plain(a + b)
  {
    var c := a + b;
    forall i | 0 <= i < |c| ensures PlainAt(c, i) {
      if i < |a| {
        assert c[i] == a[i];
        assert PlainAt(a, i);
        if a[i] == '(' {
          assert c[i + 1] == a[i + 1];
        }
      } else {
        var k := i - |a|;
        assert c[i] == b[k];
        assert PlainAt(b, k);
        if b[k] == '(' {
          assert c[i + 1] == b[k + 1];
        }
      }
    }
  }

  lemma ParenPlain(y: string)
    requires Clean(y) && y != [] && y[0] != 'm'
    ensures Plain("(" + y)
  {
    var s := "(" + y;
    forall i | 0 <= i < |s| ensures PlainAt(s, i) {
      if i > 0 {
        assert s[i] == y[i - 1];
      }
    }
  }

  /** A text built like the header is `Plain`. */
  lemma PlainLayout(front: string, lead: string, link: string, aside: string)
    requires Clean(front) && Clean(lead) && Clean(link) && Clean(aside)
    requires link != [] && link[0] != 'm' && aside != [] && aside[0] != 'm'
    ensures Plain(front + lead + "(" + link + "(" + aside)
  {
    ParenPlain(link);
    ParenPlain(aside);
    PlainAppend(front, lead);
    PlainAppend(front + lead, "(" + link);
    PlainAppend(front + lead + ("(" + link), "(" + aside);
    assert front + lead + "(" + link + "(" + aside == front + lead + ("(" + link) + ("(" + aside);
  }

  lemma IntroStarts()
    ensures IntroLink != [] && IntroLink[0] == 'h' && IntroAside != [] && IntroAside[0] == 't'
  {
    assert IntroLink == "https://github.com/" + (IntroLink[|"https://github.com/"|..]);
    assert IntroAside == "typically hashes " + (IntroAside[|"typically hashes "|..]);
  }

  lemma HeaderPlain()
    ensures Plain(OverviewHeader)
  {
    FrontMatterClean();
    IntroLeadClean();
    IntroLinkClean();
    IntroAsideClean();
    IntroStarts();
    PlainLayout(FrontMatter, IntroLead, IntroLink, IntroAside);
  }

  lemma HeaderEndsLine()
    ensures OverviewHeader != [] && OverviewHeader[|OverviewHeader| - 1] == '\n'
  {
    var last := "policies).\n\n";
    assert IntroAside == "typically hashes " + "representing asset IDs, " + "output locking scripts, " + "or token forging " + last;
    assert OverviewHeader[|OverviewHeader| - 1] == last[|last| - 1];
  }

  // ---------------------------------------------------------------------
  // Where the link patterns match.

  /** `/\(\bmappings\b/` matches exactly where `(mappings` starts and is
      not followed by a word character. */
  lemma MappingsMatch(prev: Option<char>, s: string)
    ensures MatchLen(prev, s, MappingsPattern).Some? <==>
      StartsWith(s, "(mappings") && (|s| == 9 || !IsWordChar(s[9]))
  {
    assert "(" == ['('];
    assert "(mappings" == ['('] + Mappings;
    PrefixedWordMatch(prev, s, '(', Mappings);
  }

  /** `u` followed by `rest`, where `u` is `Plain` and ends a line (or
      nothing follows it): no match of a link pattern starts in `u`. */
  predicate Sealed(u: string, rest: string) {
    Plain(u) && (rest == [] || (u != [] && u[|u| - 1] == '\n'))
  }


  /** The text `src` cannot match at an offset `j` inside a sealed `u`
      when it holds a `U` and no line break. */
  lemma DotMatchBlocked(u: string, rest: string, j: nat, src: string, k: nat)
    requires Sealed(u, rest) && j < |u|
    requires k < |src| && src[k] == 'U'
    requires forall m :: 0 <= m < |src| ==> src[m] != '\n'
    ensures !DotMatch((u + rest)[j..], src)
  {
    var s := (u + rest)[j..];
    if |src| <= |s| {
      if j + k < |u| {
        assert s[k] == u[j + k];
        assert PlainAt(u, j + k);
        assert !AtomOk(src[k], s[k]);
      } else {
        var m := |u| - 1 - j;
        assert s[m] == u[|u| - 1];
        assert !AtomOk(src[m], s[m]);
      }
    }
  }

  lemma WordBlocked(u: string, rest: string, src: string, k: nat)
    requires Sealed(u, rest)
    requires src != [] && IsWordChar(src[0]) && IsWordChar(src[|src| - 1])
    requires k < |src| && src[k] == 'U'
    requires forall m :: 0 <= m < |src| ==> src[m] != '\n'
    ensures Blocked(u, rest, WordPattern(src))
  {
    forall j, prev: Option<char> | 0 <= j < |u| ensures MatchLen(prev, (u + rest)[j..], WordPattern(src)).None? {
      WordPatternMatch(prev, (u + rest)[j..], src);
      DotMatchBlocked(u, rest, j, src, k);
    }
  }

  lemma RegistryTermsShape()
    ensures RegistryTerms != [] && IsWordChar(RegistryTerms[0]) && IsWordChar(RegistryTerms[|RegistryTerms| - 1])
    ensures 18 < |RegistryTerms| && RegistryTerms[18] == 'U'
    ensures forall m :: 0 <= m < |RegistryTerms| ==> RegistryTerms[m] != '\n'
  {
  }

  lemma ApiTermsShape()
    ensures ApiTerms != [] && IsWordChar(ApiTerms[0]) && IsWordChar(ApiTerms[|ApiTerms| - 1])
    ensures 13 < |ApiTerms| && ApiTerms[13] == 'U'
    ensures forall m :: 0 <= m < |ApiTerms| ==> ApiTerms[m] != '\n'
  {
  }

  lemma MappingsBlocked(u: string, rest: string)
    requires Sealed(u, rest)
    ensures Blocked(u, rest, MappingsPattern)
  {
    forall j, prev: Option<char> | 0 <= j < |u| ensures MatchLen(prev, (u + rest)[j..], MappingsPattern).None? {
      var s := (u + rest)[j..];
      MappingsMatch(prev, s);
      if |s| >= 9 {
        assert s[0] == u[j];
        if j + 1 < |u| {
          assert s[1] == u[j + 1];
          assert PlainAt(u, j);
        }
        assert !(s[0] == '(' && s[1] == 'm');
        assert s[..9][0] == s[0] && s[..9][1] == s[1];
      }
    }
  }

  lemma SealedBlocks(u: string, rest: string)
    requires Sealed(u, rest)
    ensures Blocked(u, rest, RegistryTermsPattern)
    ensures Blocked(u, rest, ApiTermsPattern)
    ensures Blocked(u, rest, MappingsPattern)
  {
    RegistryTermsShape();
    WordBlocked(u, rest, RegistryTerms, 18);
    ApiTermsShape();
    WordBlocked(u, rest, ApiTerms, 13);
    MappingsBlocked(u, rest);
  }

  lemma ReplaceEmpty(prev: Option<char>, p: Pattern, rep: string)
    requires Width(p) > 0
    ensures ReplaceAllFrom(prev, [], p, rep) == []
  {
  }

  /** Three global replaces in a row scan past a prefix none of them can
      match in. */
  lemma ThreeStagesSkip(prev: Option<char>, u: string, rest: string,
                        p1: Pattern, r1: string, p2: Pattern, r2: string, p3: Pattern, r3: string)
    requires Width(p1) > 0 && Width(p2) > 0 && Width(p3) > 0
    requires forall t :: (rest == [] ==> t == []) ==> Blocked(u, t, p1) && Blocked(u, t, p2) && Blocked(u, t, p3)
    ensures var last := LastOf(prev, u);
      ReplaceAllFrom(prev, ReplaceAllFrom(prev, ReplaceAllFrom(prev, u + rest, p1, r1), p2, r2), p3, r3)
      == u + ReplaceAllFrom(last, ReplaceAllFrom(last, ReplaceAllFrom(last, rest, p1, r1), p2, r2), p3, r3)
  {
    var last := LastOf(prev, u);
    ReplaceAllSkip(prev, u, rest, p1, r1);
    var a := ReplaceAllFrom(last, rest, p1, r1);
    if rest == [] {
      ReplaceEmpty(last, p1, r1);
    }
    ReplaceAllSkip(prev, u, a, p2, r2);
    var b := ReplaceAllFrom(last, a, p2, r2);
    if a == [] {
      ReplaceEmpty(last, p2, r2);
    }
    ReplaceAllSkip(prev, u, b, p3, r3);
  }

  /** All three link rewrites leave a sealed prefix as it is. */
  lemma LinksSkip(prev: Option<char>, u: string, rest: string, trUrl: string)
    requires Sealed(u, rest)
    ensures LinksFrom(prev, u + rest, trUrl) == u + LinksFrom(LastOf(prev, u), rest, trUrl)
  {
    PatternWidths();
    forall t | rest == [] ==> t == []
      ensures Blocked(u, t, RegistryTermsPattern) && Blocked(u, t, ApiTermsPattern) && Blocked(u, t, MappingsPattern)
    {
      SealedBlocks(u, t);
    }
    ThreeStagesSkip(prev, u, rest, RegistryTermsPattern, trUrl + RegistryTerms,
      ApiTermsPattern, trUrl + ApiTerms, MappingsPattern, "(" + trUrl + Mappings);
  }

  /** Text with no `U` and no `(m` keeps its links. */
  lemma PlainKeepsLinks(s: string, trUrl: string)
    requires Plain(s)
    ensures AbsoluteLinks(s, trUrl) == s
  {
    PatternWidths();
    LinksSkip(None, s, [], trUrl);
    var last := LastOf(None, s);
    ReplaceEmpty(last, RegistryTermsPattern, trUrl + RegistryTerms);
    ReplaceEmpty(last, ApiTermsPattern, trUrl + ApiTerms);
    ReplaceEmpty(last, MappingsPattern, "(" + trUrl + Mappings);
    assert s + [] == s;
  }

  /** A text in which none of the three patterns can match, at any
      position and whatever comes before it, keeps its links. */
  lemma UnmatchedKeepsLinks(s: string, trUrl: string)
    requires Blocked(s, [], RegistryTermsPattern)
    requires Blocked(s, [], ApiTermsPattern)
    requires Blocked(s, [], MappingsPattern)
    ensures AbsoluteLinks(s, trUrl) == s
  {
    PatternWidths();
    forall t: string | t == []
      ensures Blocked(s, t, RegistryTermsPattern) && Blocked(s, t, ApiTermsPattern) && Blocked(s, t, MappingsPattern)
    {
    }
    ThreeStagesSkip(None, s, [], RegistryTermsPattern, trUrl + RegistryTerms,
      ApiTermsPattern, trUrl + ApiTerms, MappingsPattern, "(" + trUrl + Mappings);
    var last := LastOf(None, s);
    ReplaceEmpty(last, RegistryTermsPattern, trUrl + RegistryTerms);
    ReplaceEmpty(last, ApiTermsPattern, trUrl + ApiTerms);
    ReplaceEmpty(last, MappingsPattern, "(" + trUrl + Mappings);
    assert s + [] == s;
  }

  // ---------------------------------------------------------------------
  // What the link rewrites do.

  lemma MappingsShape()
    ensures Mappings != [] && IsWordChar(Mappings[0]) && IsWordChar(Mappings[|Mappings| - 1]) && '.' !in Mappings
    ensures MappingsPattern == Atoms(['(']) + WordPattern(Mappings)
  {
    assert "(" == ['('];
  }

  /** The three rewrites of lines 116-124 by their reference definitions:
      each `\bW\b` occurrence of a terms file, and each `(mappings` not
      followed by a word character, is given the repository address. */
  lemma LinksReference(prev: Option<char>, s: string, trUrl: string)
    ensures LinksFrom(prev, s, trUrl) ==
      var a := WordReplace(prev, s, RegistryTerms, trUrl + RegistryTerms);
      var b := WordReplace(prev, a, ApiTerms, trUrl + ApiTerms);
      PrefixedReplace(b, '(', Mappings, "(" + trUrl + Mappings)
  {
    PatternWidths();
    RegistryTermsShape();
    ApiTermsShape();
    MappingsShape();
    WordReplaceSpec(prev, s, RegistryTerms, trUrl + RegistryTerms);
    var a := WordReplace(prev, s, RegistryTerms, trUrl + RegistryTerms);
    WordReplaceSpec(prev, a, ApiTerms, trUrl + ApiTerms);
    var b := WordReplace(prev, a, ApiTerms, trUrl + ApiTerms);
    PrefixedReplaceSpec(prev, b, '(', Mappings, "(" + trUrl + Mappings);
  }

  /** A word pattern between parentheses is replaced. */
  lemma WordLinked(w: string, rep: string)
    requires w != [] && IsWordChar(w[0]) && IsWordChar(w[|w| - 1])
    ensures ReplaceAllFrom(None, "(" + w + ")", WordPattern(w), rep) == "(" + rep + ")"
  {
    WordReplaceSpec(None, "(" + w + ")", w, rep);
    assert "(" == ['('] && ")" == [')'];
    WordReplaced(w, '(', ')', rep);
  }

  /** A relative link to the registry's terms of use is made absolute. */
  lemma RegistryTermsLinked(trUrl: string)
    ensures ReplaceAllFrom(None, "(" + RegistryTerms + ")", RegistryTermsPattern, trUrl + RegistryTerms)
      == "(" + trUrl + RegistryTerms + ")"
  {
    RegistryTermsShape();
    WordLinked(RegistryTerms, trUrl + RegistryTerms);
  }

  /** A relative link to the API's terms of use is made absolute. */
  lemma ApiTermsLinked(trUrl: string)
    ensures ReplaceAllFrom(None, "(" + ApiTerms + ")", ApiTermsPattern, trUrl + ApiTerms)
      == "(" + trUrl + ApiTerms + ")"
  {
    ApiTermsShape();
    WordLinked(ApiTerms, trUrl + ApiTerms);
  }

  /** A relative link to the `mappings` directory is made absolute. */
  lemma MappingsLinked(trUrl: string)
    ensures ReplaceAllFrom(None, "(" + Mappings + ")", MappingsPattern, "(" + trUrl + Mappings)
      == "(" + trUrl + Mappings + ")"
  {
    MappingsShape();
    PrefixedReplaceSpec(None, "(" + Mappings + ")", '(', Mappings, "(" + trUrl + Mappings);
    assert "(" == ['('] && ")" == [')'];
    PrefixedReplaced('(', Mappings, ')', "(" + trUrl + Mappings);
  }

  /** Three global replaces do not depend on the character before the
      input beyond whether it is a word character. */
  lemma ThreeStagesPrev(q1: Option<char>, q2: Option<char>, s: string,
                        p1: Pattern, r1: string, p2: Pattern, r2: string, p3: Pattern, r3: string)
    requires Width(p1) > 0 && Width(p2) > 0 && Width(p3) > 0 && WordBefore(q1) == WordBefore(q2)
    ensures ReplaceAllFrom(q1, ReplaceAllFrom(q1, ReplaceAllFrom(q1, s, p1, r1), p2, r2), p3, r3)
         == ReplaceAllFrom(q2, ReplaceAllFrom(q2, ReplaceAllFrom(q2, s, p1, r1), p2, r2), p3, r3)
  {
    ReplaceAllFromPrev(q1, q2, s, p1, r1);
    var a := ReplaceAllFrom(q2, s, p1, r1);
    ReplaceAllFromPrev(q1, q2, a, p2, r2);
    var b := ReplaceAllFrom(q2, a, p2, r2);
    ReplaceAllFromPrev(q1, q2, b, p3, r3);
  }

  /** `LinksFrom` after a line break is `AbsoluteLinks`: the line break
      is not a word character. */
  lemma LinksAfterLineBreak(s: string, trUrl: string)
    ensures LinksFrom(Some('\n'), s, trUrl) == AbsoluteLinks(s, trUrl)
  {
    PatternWidths();
    var nl: Option<char> := Some('\n');
    assert !WordBefore(nl);
    ThreeStagesPrev(nl, None, s, RegistryTermsPattern, trUrl + RegistryTerms,
      ApiTermsPattern, trUrl + ApiTerms, MappingsPattern, "(" + trUrl + Mappings);
  }

  // ---------------------------------------------------------------------
  // The overview page.

  lemma HeaderHasNoHash()
    ensures '#' !in OverviewHeader
  {
    HeaderPlain();
    forall i | 0 <= i < |OverviewHeader| ensures OverviewHeader[i] != '#' {
      assert PlainAt(OverviewHeader, i);
    }
  }

  /** Lines 109-113: the heading and the step-by-step cut act on the
      README alone, the header passes through unchanged. */
  lemma TruncationStep(content: string)
    ensures TruncatedOverview(content) == OverviewHeader + OverviewBody(content)
  {
    HeaderHasNoHash();
    assert PackageHeading[0] == '#' && StepByStepHeading[0] == '#';
    ReplaceFirstAfterPrefix(OverviewHeader, content, PackageHeading, "");
    SplitFirstAfterPrefix(OverviewHeader, ReplaceFirst(content, PackageHeading, ""), StepByStepHeading);
  }

  /** What is kept of the README: a prefix of it with the top heading
      removed that stops right at its first step-by-step heading, and all
      of it when there is no such heading. */
  lemma OverviewBodySpec(content: string)
    ensures var t := ReplaceFirst(content, PackageHeading, "");
      StartsWith(t, OverviewBody(content)) && Absent(OverviewBody(content), StepByStepHeading)
      && (OverviewBody(content) == t <==> Absent(t, StepByStepHeading))
      && (OverviewBody(content) == t || OccursAt(t, StepByStepHeading, |OverviewBody(content)|))
  {
    var t := ReplaceFirst(content, PackageHeading, "");
    var r := OverviewBody(content);
    SplitFirstSpec(t, StepByStepHeading);
    forall i | 0 <= i <= |r| ensures !OccursAt(r, StepByStepHeading, i) {
      if OccursAt(r, StepByStepHeading, i) {
        assert t[..|r|] == r;
        assert t[i..i + |StepByStepHeading|] == r[i..i + |StepByStepHeading|];
        assert OccursAt(t, StepByStepHeading, i);
      }
    }
  }

  /** The overview construction for any header that ends a line and in
      which neither a heading nor a link match can start. */
  lemma ShapeFor(h: string, content: string, trUrl: string)
    requires Sealed(h, content) && h != [] && h[|h| - 1] == '\n' && '#' !in h
    ensures AbsoluteLinks(SplitFirst(ReplaceFirst(h + content, PackageHeading, ""), StepByStepHeading), trUrl)
      == h + AbsoluteLinks(OverviewBody(content), trUrl)
  {
    assert PackageHeading[0] == '#' && StepByStepHeading[0] == '#';
    ReplaceFirstAfterPrefix(h, content, PackageHeading, "");
    SplitFirstAfterPrefix(h, ReplaceFirst(content, PackageHeading, ""), StepByStepHeading);
    LinksSkip(None, h, OverviewBody(content), trUrl);
    LinksAfterLineBreak(OverviewBody(content), trUrl);
  }

  /** The overview page is the fixed header, the kept part of the README
      with its links made absolute, and the footer naming the README; so
      it starts with the header and ends with the footer. */
  lemma OverviewShape(content: string, trUrl: string)
    ensures OverviewStringManipulation(content, trUrl)
      == OverviewHeader + AbsoluteLinks(OverviewBody(content), trUrl) + OverviewFooter(trUrl)
  {
    HeaderPlain();
    HeaderEndsLine();
    HeaderHasNoHash();
    ShapeFor(OverviewHeader, content, trUrl);
  }
}
