/** Finding the wiki pages to download (lines 190-191 of
    scripts/token-registry.ts): every `[[name]]` on the wiki's home page,
    found with `match(/(?<=\[\[)(.*?)(?=\]\])/g)`, without repetitions
    (`[...new Set(…)]`). */
module LinkDiscovery {
  import opened Wrappers
  import opened JsString
  import opened JsRegex

  /** `(?<=\[\[)` holds at position `i`. */
  predicate OpensAt(s: string, i: int) {
    2 <= i <= |s| && s[i - 2] == '[' && s[i - 1] == '['
  }

  /** `(?=\]\])` holds at position `k`. */
  predicate ClosesAt(s: string, k: int) {
    0 <= k && k + 2 <= |s| && s[k] == ']' && s[k + 1] == ']'
  }

  /** `.` accepts every character of `s[k..e]`. */
  predicate NoBreak(s: string, k: int, e: int)
    requires 0 <= k <= e <= |s|
  {
    forall m :: k <= m < e ==> !IsLineTerminator(s[m])
  }

  /** `(.*?)(?=\]\])` from position `k`: the lazy star tries the shortest
      run first, so the match ends at the first `]]` that no line break
      comes before. */
  function LazyEnd(s: string, k: nat): (r: Option<nat>)
    requires k <= |s|
    ensures r.Some? ==> (k <= r.value && ClosesAt(s, r.value) && NoBreak(s, k, r.value)
      && forall m :: k <= m < r.value ==> !ClosesAt(s, m))
    ensures r.None? ==> forall e :: k <= e <= |s| && ClosesAt(s, e) ==> !NoBreak(s, k, e)
    decreases |s| - k
  {
    if ClosesAt(s, k) then Some(k)
    else if k < |s| && !IsLineTerminator(s[k]) then LazyEnd(s, k + 1)
    else None
  }

  /** The end of the match that starts at `i`, if one does. */
  function LinkAt(s: string, i: nat): Option<nat>
    requires i <= |s|
  {
    if OpensAt(s, i) then LazyEnd(s, i) else None
  }

  /** The matches of the global search from position `i` on. After an
      empty match the search goes on one position further, as
      `lastIndex` is advanced then. */
  function MatchesFrom(s: string, i: nat): seq<string>
    requires i <= |s|
    decreases |s| - i
  {
    match LinkAt(s, i)
      case Some(e) => [s[i..e]] + (if e > i then MatchesFrom(s, e) else MatchesFrom(s, i + 1))
      case None => if i < |s| then MatchesFrom(s, i + 1) else []
  }

  /** `s.match(re)` for the global `re`: `null` when nothing matches. */
  function GlobalMatch(s: string): Option<seq<string>> {
    var m := MatchesFrom(s, 0);
    if m == [] then None else Some(m)
  }

  /** `[...new Set(xs)]`: the elements in the order they first appear. */
  function Dedup(xs: seq<string>): seq<string>
    decreases |xs|
  {
    if xs == [] then []
    else
      var d := Dedup(xs[..|xs| - 1]);
      if xs[|xs| - 1] in d then d else d + [xs[|xs| - 1]]
  }

  /** `tr_unique_urls`: the page names to download; `new Set(null)` is
      empty. */
  function LinkNames(home: string): seq<string> {
    match GlobalMatch(home)
      case None => []
      case Some(m) => Dedup(m)
  }

  // ---------------------------------------------------------------------
  // Deduplication.

  predicate NoDup(xs: seq<string>) {
    forall i, j :: 0 <= i < j < |xs| ==> xs[i] != xs[j]
  }

  /** Where `x` first appears in `xs`. */
  function FirstIndex(xs: seq<string>, x: string): (k: nat)
    requires x in xs
    ensures k < |xs| && xs[k] == x && forall j :: 0 <= j < k ==> xs[j] != x
  {
    if xs[0] == x then 0 else 1 + FirstIndex(xs[1..], x)
  }

  lemma FirstIndexIs(xs: seq<string>, x: string, k: nat)
    requires k < |xs| && xs[k] == x && forall j :: 0 <= j < k ==> xs[j] != x
    ensures FirstIndex(xs, x) == k
  {
    var f := FirstIndex(xs, x);
    assert !(f < k) && !(k < f);
  }

  lemma FirstIndexPrefix(xs: seq<string>, n: nat, x: string)
    requires n <= |xs| && x in xs[..n]
    ensures FirstIndex(xs, x) == FirstIndex(xs[..n], x)
  {
    var k := FirstIndex(xs[..n], x);
    FirstIndexIs(xs, x, k);
  }

  /** The elements of `d`, all taken from `xs`, come in the order of their
      first appearance in `xs`. */
  predicate InFirstOrder(xs: seq<string>, d: seq<string>) {
    forall i, j :: 0 <= i < j < |d| && d[i] in xs && d[j] in xs ==> FirstIndex(xs, d[i]) < FirstIndex(xs, d[j])
  }

  /** `Dedup` keeps each element once, keeps every element, and keeps them
      in the order of their first appearance. */
  lemma {:induction false} DedupSpec(xs: seq<string>)
    ensures NoDup(Dedup(xs))
    ensures forall x :: x in Dedup(xs) <==> x in xs
    ensures InFirstOrder(xs, Dedup(xs))
    decreases |xs|
  {
    if xs != [] {
      var n := |xs| - 1;
      var p := xs[..n];
      var last := xs[n];
      DedupSpec(p);
      var d := Dedup(p);
      assert xs == p + [last];
      forall x | x in p ensures FirstIndex(xs, x) == FirstIndex(p, x) {
        FirstIndexPrefix(xs, n, x);
      }
      if last !in d {
        var r := d + [last];
        assert last !in p;
        FirstIndexIs(xs, last, n);
        forall i, j | 0 <= i < j < |r| ensures FirstIndex(xs, r[i]) < FirstIndex(xs, r[j]) {
          assert r[i] == d[i] && r[i] in p;
          assert FirstIndex(xs, r[i]) == FirstIndex(p, r[i]);
          if j < |d| {
            assert r[j] == d[j] && r[j] in p;
            assert FirstIndex(xs, r[j]) == FirstIndex(p, r[j]);
            assert FirstIndex(p, d[i]) < FirstIndex(p, d[j]);
          } else {
            assert r[j] == last;
            assert FirstIndex(p, r[i]) < |p|;
          }
        }
      } else {
        forall i, j | 0 <= i < j < |d| ensures FirstIndex(xs, d[i]) < FirstIndex(xs, d[j]) {
          assert d[i] in p && d[j] in p;
          assert FirstIndex(xs, d[i]) == FirstIndex(p, d[i]);
          assert FirstIndex(xs, d[j]) == FirstIndex(p, d[j]);
          assert FirstIndex(p, d[i]) < FirstIndex(p, d[j]);
        }
      }
    }
  }

  // ---------------------------------------------------------------------
  // What the search finds.

  /** `x` is found at `k`: `[[` before it, the nearest `]]` after it, no
      line break inside. */
  predicate LinkOccurrence(s: string, k: nat, x: string) {
    OpensAt(s, k) && k + |x| <= |s| && s[k..k + |x|] == x && ClosesAt(s, k + |x|)
    && NoBreak(s, k, k + |x|) && forall m :: k <= m < k + |x| ==> !ClosesAt(s, m)
  }

  /** Every match is a link text between `[[` and the nearest `]]`. */
  lemma {:induction false} MatchesSound(s: string, i: nat)
    requires i <= |s|
    ensures forall x :: x in MatchesFrom(s, i) ==> exists k: nat :: i <= k && LinkOccurrence(s, k, x)
    decreases |s| - i
  {
    match LinkAt(s, i)
      case Some(e) =>
        assert LinkOccurrence(s, i, s[i..e]);
        if e > i {
          MatchesSound(s, e);
        } else {
          MatchesSound(s, i + 1);
        }
      case None =>
        if i < |s| {
          MatchesSound(s, i + 1);
        }
  }

  /** Positions where no `[[` ends contribute nothing. */
  lemma {:induction false} MatchesSkip(s: string, i: nat, j: nat)
    requires i <= j <= |s|
    requires forall m :: i <= m < j ==> !OpensAt(s, m)
    ensures MatchesFrom(s, i) == MatchesFrom(s, j)
    decreases j - i
  {
    if i < j {
      MatchesSkip(s, i + 1, j);
    }
  }

  lemma MatchesAtEnd(s: string)
    ensures MatchesFrom(s, |s|) == []
  {
  }

  /** A page with no `[[` names no page. */
  lemma NoOpeningNoNames(home: string)
    requires Absent(home, "[[")
    ensures GlobalMatch(home).None? && LinkNames(home) == []
  {
    forall m | 0 <= m < |home| ensures !OpensAt(home, m) {
      if OpensAt(home, m) {
        assert home[m - 2..m] == "[[";
        assert OccursAt(home, "[[", m - 2);
      }
    }
    MatchesSkip(home, 0, |home|);
    MatchesAtEnd(home);
  }

  /** The lazy run ends at the first `]]` when no line break or `]]`
      comes before it. */
  lemma {:induction false} LazyRun(s: string, k: nat, e: nat)
    requires k <= e && ClosesAt(s, e)
    requires forall m :: k <= m < e ==> !ClosesAt(s, m) && !IsLineTerminator(s[m])
    ensures LazyEnd(s, k) == Some(e)
    decreases e - k
  {
    if k < e {
      LazyRun(s, k + 1, e);
    }
  }

  /** What `LinkNames` returns: each name once, every match among them, in
      the order of first appearance on the page, each a link text of the
      page. */
  lemma LinkNamesSpec(home: string)
    ensures NoDup(LinkNames(home))
    ensures forall x :: x in LinkNames(home) <==> x in MatchesFrom(home, 0)
    ensures InFirstOrder(MatchesFrom(home, 0), LinkNames(home))
    ensures forall x :: x in LinkNames(home) ==> exists k: nat :: LinkOccurrence(home, k, x)
  {
    var m := MatchesFrom(home, 0);
    assert LinkNames(home) == Dedup(m);
    DedupSpec(m);
    MatchesSound(home, 0);
  }

  // ---------------------------------------------------------------------
  // Pages made of links.

  /** Free text followed by one `[[name]]` link. */
  datatype Entry = Entry(text: string, name: string)

  /** The page that lists `entries` in order. */
  function Page(entries: seq<Entry>): string {
    if entries == [] then [] else
      entries[0].text + "[[" + entries[0].name + "]]" + Page(entries[1..])
  }

  function Names(entries: seq<Entry>): seq<string> {
    if entries == [] then [] else [entries[0].name] + Names(entries[1..])
  }

  /** Free text without `[`, names without brackets or line breaks. */
  predicate Simple(entries: seq<Entry>) {
    forall k :: 0 <= k < |entries| ==> SimpleEntry(entries[k])
  }

  predicate SimpleEntry(e: Entry) {
    '[' !in e.text && '[' !in e.name && ']' !in e.name
    && forall m :: 0 <= m < |e.name| ==> !IsLineTerminator(e.name[m])
  }

  /** The part of the page that follows the first link. */
  lemma PageStep(pre: string, e: Entry, rest: seq<Entry>)
    ensures pre + Page([e] + rest) == (pre + e.text + "[[" + e.name + "]]") + Page(rest)
  {
    assert ([e] + rest)[0] == e && ([e] + rest)[1..] == rest;
  }

  /** A match from `b` to `end`, then the search goes on. */
  lemma MatchHere(s: string, b: nat, end: nat)
    requires b <= end && OpensAt(s, b) && ClosesAt(s, end)
    requires forall m :: b <= m < end ==> !ClosesAt(s, m) && !IsLineTerminator(s[m])
    ensures MatchesFrom(s, b) == [s[b..end]] + MatchesFrom(s, if end > b then end else b + 1)
  {
    LazyRun(s, b, end);
  }

  /** In the free text before a link, and in the link's `[[`, no match
      starts. */
  lemma TextLayout(pre: string, text: string, rest: string)
    requires pre == [] || pre[|pre| - 1] == ']'
    requires '[' !in text
    ensures var s := pre + text + "[[" + rest;
      forall m :: |pre| <= m < |pre| + |text| + 2 ==> !OpensAt(s, m)
  {
    var s := pre + text + "[[" + rest;
    forall m | |pre| <= m < |pre| + |text| + 2 ensures !OpensAt(s, m) {
      if m >= 1 && m - 1 < |pre| + |text| {
        if m - 1 >= |pre| {
          assert s[m - 1] == text[m - 1 - |pre|];
        } else {
          assert s[m - 1] == pre[m - 1];
        }
      } else if m == |pre| + |text| + 1 && m >= 2 {
        if m - 2 >= |pre| {
          assert s[m - 2] == text[m - 2 - |pre|];
        } else {
          assert s[m - 2] == pre[m - 2];
        }
      }
    }
  }

  /** The link itself: `[[` before the name, `]]` after it, no `]]` or line
      break inside, and no match starting in the closing `]]`. */
  lemma NameLayout(h: string, name: string, tail: string)
    requires |h| >= 2 && h[|h| - 2] == '[' && h[|h| - 1] == '['
    requires '[' !in name && ']' !in name && forall m :: 0 <= m < |name| ==> !IsLineTerminator(name[m])
    ensures var s := h + name + "]]" + tail;
      var b := |h|;
      var end := |h| + |name|;
      OpensAt(s, b) && ClosesAt(s, end) && s[b..end] == name
      && (forall m :: b <= m < end ==> !ClosesAt(s, m) && !IsLineTerminator(s[m]))
      && forall m :: (if end > b then end else b + 1) <= m < end + 2 ==> !OpensAt(s, m)
  {
    var s := h + name + "]]" + tail;
    var b := |h|;
    var end := b + |name|;
    assert s[b - 2] == '[' && s[b - 1] == '[';
    assert s[end] == ']' && s[end + 1] == ']';
    assert s[b..end] == name;
    forall m | b <= m < end ensures !ClosesAt(s, m) && !IsLineTerminator(s[m]) {
      assert s[m] == name[m - b];
    }
    forall m | (if end > b then end else b + 1) <= m < end + 2 ensures !OpensAt(s, m) {
      if m == end + 1 {
        assert s[m - 1] == ']';
      } else {
        assert s[m - 1] == name[m - 1 - b];
      }
    }
  }

  /** One entry: its link is found, and the search goes on after the
      closing `]]`. */
  lemma EntryMatch(pre: string, e: Entry, tail: string)
    requires pre == [] || pre[|pre| - 1] == ']'
    requires '[' !in e.text && '[' !in e.name && ']' !in e.name
    requires forall m :: 0 <= m < |e.name| ==> !IsLineTerminator(e.name[m])
    ensures var s := pre + e.text + "[[" + e.name + "]]" + tail;
      var after := |pre + e.text + "[[" + e.name + "]]"|;
      MatchesFrom(s, |pre|) == [e.name] + MatchesFrom(s, after)
  {
    var h := pre + e.text + "[[";
    var s := h + e.name + "]]" + tail;
    assert pre + e.text + "[[" + e.name + "]]" + tail == s;
    assert s == pre + e.text + "[[" + (e.name + "]]" + tail);
    TextLayout(pre, e.text, e.name + "]]" + tail);
    NameLayout(h, e.name, tail);
    var b := |h|;
    var end := b + |e.name|;
    MatchesSkip(s, |pre|, b);
    MatchHere(s, b, end);
    MatchesSkip(s, if end > b then end else b + 1, end + 2);
  }

  /** On a page made of simple entries, the search finds exactly the
      entries' names, in order (repetitions included). */
  lemma {:induction false} PageMatches(pre: string, entries: seq<Entry>)
    requires pre == [] || pre[|pre| - 1] == ']'
    requires Simple(entries)
    ensures MatchesFrom(pre + Page(entries), |pre|) == Names(entries)
    decreases |entries|
  {
    if entries == [] {
      assert pre + Page(entries) == pre;
      MatchesAtEnd(pre);
    } else {
      var e := entries[0];
      var rest := entries[1..];
      assert entries == [e] + rest;
      var pre' := pre + e.text + "[[" + e.name + "]]";
      PageStep(pre, e, rest);
      EntryMatch(pre, e, Page(rest));
      assert Simple(rest) by {
        forall k | 0 <= k < |rest| ensures SimpleEntry(rest[k]) {
          assert rest[k] == entries[k + 1];
        }
      }
      PageMatches(pre', rest);
      assert pre' + Page(rest) == pre + e.text + "[[" + e.name + "]]" + Page(rest);
    }
  }

  /** The entries of the example home page. */
  const ExampleEntries: seq<Entry> := [Entry("", "Foo"), Entry(" text ", "Bar"), Entry(" ", "Foo")]

  lemma ExampleTail()
    ensures Page(ExampleEntries[1..]) == " text " + "[[Bar]]" + " " + "[[Foo]]"
  {
    var t := ExampleEntries[1..];
    assert t == [Entry(" text ", "Bar"), Entry(" ", "Foo")];
    assert t[1..][1..] == [];
    assert Page(t[1..]) == " " + "[[Foo]]";
  }

  /** The example home page as three entries. */
  lemma ExamplePage()
    ensures Page(ExampleEntries) == "[[Foo]]" + " text " + "[[Bar]]" + " " + "[[Foo]]"
  {
    ExampleTail();
  }

  lemma ExampleSimple()
    ensures Simple(ExampleEntries)
  {
    assert SimpleEntry(Entry("", "Foo"));
    assert SimpleEntry(Entry(" text ", "Bar"));
    assert SimpleEntry(Entry(" ", "Foo"));
  }

  lemma ExampleNames()
    ensures Names(ExampleEntries) == ["Foo", "Bar", "Foo"]
  {
    var e := ExampleEntries;
    assert e[1..][1..] == e[2..] && e[2..][1..] == [];
  }

  /** A name found twice is kept once, at its first place. */
  lemma DedupExample()
    ensures Dedup(["Foo", "Bar", "Foo"]) == ["Foo", "Bar"]
  {
    var m := ["Foo", "Bar", "Foo"];
    assert m[..2] == ["Foo", "Bar"] && m[..2][..1] == ["Foo"] && m[..2][..1][..0] == [];
    assert "Foo" != "Bar";
    assert Dedup(["Foo"]) == ["Foo"];
    assert Dedup(["Foo", "Bar"]) == ["Foo", "Bar"];
  }

  /** The example of a home page listing one page twice. */
  lemma LinkNamesExample()
    ensures LinkNames("[[Foo]]" + " text " + "[[Bar]]" + " " + "[[Foo]]") == ["Foo", "Bar"]
  {
    var home := "[[Foo]]" + " text " + "[[Bar]]" + " " + "[[Foo]]";
    ExamplePage();
    ExampleSimple();
    ExampleNames();
    PageMatches([], ExampleEntries);
    assert [] + home == home;
    DedupExample();
  }
}
