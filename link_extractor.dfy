/**
 * The link extractor of `convert_pdf_to_word`: for each page in order, the
 * `uri` of each annotation and then every URL match of the page text, each
 * stripped of trailing punctuation, appended to `links` unless already there.
 */
module LinkExtractor {

  import opened Wrappers
  import opened UrlPattern
  import opened TrailingStrip

  /**
   * One page of the PDF as the extractor sees it: the `uri` entry of each of
   * its annotations (absent when the annotation carries none) and its text.
   */
  datatype Page = Page(annotUris: seq<Option<string>>, text: string)

  /** Truthiness of `annot.info.get('uri')`: present and not the empty string. */
  predicate Truthy(uri: Option<string>) {
    uri.Some? && uri.value != ""
  }

  // ----- the candidate stream, in the order the loops visit it -----

  /** Stripped URIs of the truthy annotations, in annotation order. */
  function AnnotCandidates(uris: seq<Option<string>>): seq<string>
    decreases |uris|
  {
    if uris == [] then []
    else
      var last := uris[|uris| - 1];
      AnnotCandidates(uris[..|uris| - 1]) + (if Truthy(last) then [RStrip(last.value)] else [])
  }

  /** Every regex match, stripped, in match order. */
  function StripAll(ms: seq<string>): seq<string>
    decreases |ms|
  {
    if ms == [] then [] else StripAll(ms[..|ms| - 1]) + [RStrip(ms[|ms| - 1])]
  }

  function TextCandidates(text: string): seq<string> {
    StripAll(FindAll(text))
  }

  /** A page contributes its annotation URIs first, then the URL matches of its text. */
  function PageCandidates(p: Page): seq<string> {
    AnnotCandidates(p.annotUris) + TextCandidates(p.text)
  }

  /** All candidates, page after page. */
  function Candidates(pages: seq<Page>): seq<string> {
    Flatten(pages, PageCandidates)
  }

  /** The concatenation of f(p) over the pages p, in page order. */
  function Flatten(pages: seq<Page>, f: Page -> seq<string>): seq<string>
    decreases |pages|
  {
    if pages == [] then []
    else Flatten(pages[..|pages| - 1], f) + f(pages[|pages| - 1])
  }

  // ----- order-preserving de-duplication -----

  /** `if u not in links: links.append(u)` */
  function AddUnique(links: seq<string>, u: string): seq<string> {
    if u in links then links else links + [u]
  }

  /** Feeds every candidate, in order, through AddUnique. */
  function AddAll(links: seq<string>, cands: seq<string>): seq<string>
    decreases |cands|
  {
    if cands == [] then links
    else AddUnique(AddAll(links, cands[..|cands| - 1]), cands[|cands| - 1])
  }

  /** The final value of `links` for a document with these pages. */
  function Links(pages: seq<Page>): seq<string> {
    AddAll([], Candidates(pages))
  }

  // ----- the loop as the source writes it -----

  /** The nested loops of the extractor, growing `links` one candidate at a time. */
  method ExtractLinks(pages: seq<Page>) returns (links: seq<string>)
    ensures links == Links(pages)
    ensures NoDuplicates(links)
  {
    links := [];
    var i := 0;
    while i < |pages|
      invariant 0 <= i <= |pages|
      invariant links == AddAll([], Candidates(pages[..i]))
    {
      links := AddAnnotationLinks(links, pages[i].annotUris);
      links := AddTextLinks(links, pages[i].text);
      LinksAfterPage(pages, i);
      i := i + 1;
    }
    assert pages[..i] == pages;
    LinksNoDuplicates(pages);
  }

  /** The annotation loop of one page: each truthy `uri`, stripped, is appended unless already present. */
  method AddAnnotationLinks(links0: seq<string>, uris: seq<Option<string>>) returns (links: seq<string>)
    ensures links == AddAll(links0, AnnotCandidates(uris))
  {
    links := links0;
    var j := 0;
    while j < |uris|
      invariant 0 <= j <= |uris|
      invariant links == AddAll(links0, AnnotCandidates(uris[..j]))
    {
      AnnotCandidatesSnoc(uris, j);
      var uri := uris[j];
      if uri.Some? && uri.value != "" {
        var u := RStrip(uri.value);
        AddAllSnoc(links0, AnnotCandidates(uris[..j]), u);
        if u !in links {
          links := links + [u];
        }
      } else {
        assert AnnotCandidates(uris[..j]) + [] == AnnotCandidates(uris[..j]);
      }
      j := j + 1;
    }
    assert uris[..j] == uris;
  }

  /** The match loop of one page: each URL match of the text, stripped, is appended unless already present. */
  method AddTextLinks(links0: seq<string>, text: string) returns (links: seq<string>)
    ensures links == AddAll(links0, TextCandidates(text))
  {
    links := links0;
    var matches := FindAll(text);
    var k := 0;
    while k < |matches|
      invariant 0 <= k <= |matches|
      invariant links == AddAll(links0, StripAll(matches[..k]))
    {
      StripAllSnoc(matches, k);
      var u := RStrip(matches[k]);
      AddAllSnoc(links0, StripAll(matches[..k]), u);
      if u !in links {
        links := links + [u];
      }
      k := k + 1;
    }
    assert matches[..k] == matches;
  }

  /** One more page: its annotation candidates, then its text candidates. */
  lemma LinksAfterPage(pages: seq<Page>, i: nat)
    requires i < |pages|
    ensures AddAll(AddAll(AddAll([], Candidates(pages[..i])), AnnotCandidates(pages[i].annotUris)), TextCandidates(pages[i].text))
      == AddAll([], Candidates(pages[..i + 1]))
  {
    CandidatesSnoc(pages, i);
    AddAllConcat3(Candidates(pages[..i]), AnnotCandidates(pages[i].annotUris), TextCandidates(pages[i].text));
  }

  lemma AddAllConcat3(before: seq<string>, annots: seq<string>, texts: seq<string>)
    ensures AddAll(AddAll(AddAll([], before), annots), texts) == AddAll([], before + annots + texts)
  {
    AddAllConcat([], before, annots);
    AddAllConcat([], before + annots, texts);
  }

  /** Feeding two candidate streams one after the other is feeding their concatenation. */
  lemma {:induction false} AddAllConcat(links: seq<string>, a: seq<string>, b: seq<string>)
    ensures AddAll(AddAll(links, a), b) == AddAll(links, a + b)
    decreases |b|
  {
    if b != [] {
      var init := b[..|b| - 1];
      var x := b[|b| - 1];
      AddAllConcat(links, a, init);
      calc {
        AddAll(links, a + b);
        { assert (a + b)[..|a + b| - 1] == a + init; assert (a + b)[|a + b| - 1] == x; }
        AddUnique(AddAll(links, a + init), x);
        AddUnique(AddAll(AddAll(links, a), init), x);
        AddAll(AddAll(links, a), b);
      }
    } else {
      assert a + b == a;
    }
  }

  lemma AddAllSnoc(links: seq<string>, cands: seq<string>, u: string)
    ensures AddAll(links, cands + [u]) == AddUnique(AddAll(links, cands), u)
  {
    assert (cands + [u])[..|cands|] == cands;
  }

  lemma AnnotCandidatesSnoc(uris: seq<Option<string>>, j: nat)
    requires j < |uris|
    ensures AnnotCandidates(uris[..j + 1])
      == AnnotCandidates(uris[..j]) + (if Truthy(uris[j]) then [RStrip(uris[j].value)] else [])
  {
    assert uris[..j + 1][..j] == uris[..j];
  }

  lemma StripAllSnoc(ms: seq<string>, k: nat)
    requires k < |ms|
    ensures StripAll(ms[..k + 1]) == StripAll(ms[..k]) + [RStrip(ms[k])]
  {
    assert ms[..k + 1][..k] == ms[..k];
  }

  lemma CandidatesSnoc(pages: seq<Page>, i: nat)
    requires i < |pages|
    ensures Candidates(pages[..i + 1]) == Candidates(pages[..i]) + AnnotCandidates(pages[i].annotUris) + TextCandidates(pages[i].text)
  {
    FlattenSnoc(pages, i, PageCandidates);
  }

  lemma FlattenSnoc(pages: seq<Page>, i: nat, f: Page -> seq<string>)
    requires i < |pages|
    ensures Flatten(pages[..i + 1], f) == Flatten(pages[..i], f) + f(pages[i])
  {
    assert pages[..i + 1][..i] == pages[..i];
  }

  // ----- properties -----

  predicate NoDuplicates(s: seq<string>) {
    forall i, j :: 0 <= i < j < |s| ==> s[i] != s[j]
  }

  /** AddAll keeps what it had as a prefix, adds exactly the candidates, and never adds a duplicate. */
  lemma {:induction false} AddAllProperties(links: seq<string>, cands: seq<string>)
    ensures links <= AddAll(links, cands)
    ensures forall u :: u in AddAll(links, cands) <==> u in links || u in cands
    ensures NoDuplicates(links) ==> NoDuplicates(AddAll(links, cands))
    decreases |cands|
  {
    if cands != [] {
      var init := cands[..|cands| - 1];
      AddAllProperties(links, init);
      assert cands == init + [cands[|cands| - 1]];
    }
  }

  /** The extracted list never holds the same string twice. */
  lemma LinksNoDuplicates(pages: seq<Page>)
    ensures NoDuplicates(Links(pages))
  {
    AddAllProperties([], Candidates(pages));
  }

  /** Index of the first occurrence of x in s. */
  function FirstIndex(s: seq<string>, x: string): (k: nat)
    requires x in s
    ensures k < |s| && s[k] == x
    ensures forall i :: 0 <= i < k ==> s[i] != x
  {
    if s[0] == x then 0 else 1 + FirstIndex(s[1..], x)
  }

  lemma FirstIndexAppend(s: seq<string>, t: seq<string>, x: string)
    requires x in s + t
    ensures x in s ==> FirstIndex(s + t, x) == FirstIndex(s, x)
    ensures x !in s ==> FirstIndex(s + t, x) == |s| + FirstIndex(t, x)
  {
    var k := FirstIndex(s + t, x);
    if x in s {
      var k' := FirstIndex(s, x);
      assert (s + t)[k'] == x;
    } else {
      assert x in t;
      var k' := FirstIndex(t, x);
      assert (s + t)[|s| + k'] == x;
      assert forall i :: 0 <= i < |s| ==> (s + t)[i] == s[i];
      assert forall i :: 0 <= i < k' ==> (s + t)[|s| + i] == t[i];
    }
  }

  /** Each link sits where it was first seen: the list is ordered by first occurrence among the candidates. */
  lemma {:induction false} AddAllFirstSeenOrder(cands: seq<string>)
    ensures forall u :: u in AddAll([], cands) ==> u in cands
    ensures forall i, j :: 0 <= i < j < |AddAll([], cands)| ==>
      FirstIndex(cands, AddAll([], cands)[i]) < FirstIndex(cands, AddAll([], cands)[j])
    decreases |cands|
  {
    AddAllProperties([], cands);
    if cands != [] {
      var init := cands[..|cands| - 1];
      var x := cands[|cands| - 1];
      assert cands == init + [x];
      AddAllFirstSeenOrder(init);
      AddAllProperties([], init);
      var prev := AddAll([], init);
      var r := AddAll([], cands);
      forall u | u in prev ensures FirstIndex(cands, u) == FirstIndex(init, u) {
        FirstIndexAppend(init, [x], u);
      }
      if x !in prev {
        assert x !in init;
        FirstIndexAppend(init, [x], x);
        assert r == prev + [x];
        forall i, j | 0 <= i < j < |r| ensures FirstIndex(cands, r[i]) < FirstIndex(cands, r[j]) {
          assert r[i] in prev;
          if j == |prev| {
            assert FirstIndex(cands, r[j]) == |init|;
          } else {
            assert r[j] in prev;
          }
        }
      }
    }
  }

  lemma LinksFirstSeenOrder(pages: seq<Page>)
    ensures forall u :: u in Links(pages) ==> u in Candidates(pages)
    ensures forall i, j :: 0 <= i < j < |Links(pages)| ==>
      FirstIndex(Candidates(pages), Links(pages)[i]) < FirstIndex(Candidates(pages), Links(pages)[j])
  {
    AddAllFirstSeenOrder(Candidates(pages));
  }

  // ----- where the links come from -----

  /** u is the stripped form of a truthy annotation URI. */
  ghost predicate FromAnnotation(uris: seq<Option<string>>, u: string) {
    exists j :: 0 <= j < |uris| && Truthy(uris[j]) && RStrip(uris[j].value) == u
  }

  /** u is the stripped form of a URL match of the text. */
  ghost predicate FromText(text: string, u: string) {
    exists m :: m in FindAll(text) && RStrip(m) == u
  }

  ghost predicate FromPage(p: Page, u: string) {
    FromAnnotation(p.annotUris, u) || FromText(p.text, u)
  }

  lemma {:induction false} AnnotCandidatesExact(uris: seq<Option<string>>, u: string)
    ensures u in AnnotCandidates(uris) <==> FromAnnotation(uris, u)
    decreases |uris|
  {
    if uris != [] {
      var n := |uris| - 1;
      var init := uris[..n];
      assert init + [uris[n]] == uris;
      AnnotCandidatesExact(init, u);
      if FromAnnotation(init, u) {
        var j :| 0 <= j < |init| && Truthy(init[j]) && RStrip(init[j].value) == u;
        assert uris[j] == init[j];
      }
      if FromAnnotation(uris, u) {
        var j :| 0 <= j < |uris| && Truthy(uris[j]) && RStrip(uris[j].value) == u;
        if j < n {
          assert init[j] == uris[j];
        }
      }
    }
  }

  lemma {:induction false} StripAllExact(ms: seq<string>, u: string)
    ensures u in StripAll(ms) <==> exists m :: m in ms && RStrip(m) == u
    decreases |ms|
  {
    if ms != [] {
      var init := ms[..|ms| - 1];
      var last := ms[|ms| - 1];
      assert ms == init + [last];
      StripAllExact(init, u);
      if exists m :: m in ms && RStrip(m) == u {
        var m :| m in ms && RStrip(m) == u;
        assert m in init || m == last;
      }
      if exists m :: m in init && RStrip(m) == u {
        var m :| m in init && RStrip(m) == u;
        assert m in ms;
      }
    }
  }

  lemma {:induction false} FlattenExact(pages: seq<Page>, f: Page -> seq<string>, u: string)
    ensures u in Flatten(pages, f) <==> exists i :: 0 <= i < |pages| && u in f(pages[i])
    decreases |pages|
  {
    if pages != [] {
      var n := |pages| - 1;
      var init := pages[..n];
      FlattenExact(init, f, u);
      if exists i :: 0 <= i < |init| && u in f(init[i]) {
        var i :| 0 <= i < |init| && u in f(init[i]);
        assert pages[i] == init[i];
      }
      if exists i :: 0 <= i < |pages| && u in f(pages[i]) {
        var i :| 0 <= i < |pages| && u in f(pages[i]);
        if i < n {
          assert init[i] == pages[i];
        }
      }
    }
  }

  lemma PageCandidatesExact(p: Page, u: string)
    ensures u in PageCandidates(p) <==> FromPage(p, u)
  {
    AnnotCandidatesExact(p.annotUris, u);
    StripAllExact(FindAll(p.text), u);
  }

  lemma CandidatesExact(pages: seq<Page>, u: string)
    ensures u in Candidates(pages) <==> exists i :: 0 <= i < |pages| && FromPage(pages[i], u)
  {
    FlattenExact(pages, PageCandidates, u);
    forall i | 0 <= i < |pages| ensures u in PageCandidates(pages[i]) <==> FromPage(pages[i], u) {
      PageCandidatesExact(pages[i], u);
    }
  }

  /**
   * Soundness and completeness: a string is in `links` exactly when it is the
   * stripped form of a truthy annotation URI or of a URL match on some page.
   */
  lemma LinksSoundAndComplete(pages: seq<Page>, u: string)
    ensures u in Links(pages) <==> exists i :: 0 <= i < |pages| && FromPage(pages[i], u)
  {
    AddAllProperties([], Candidates(pages));
    CandidatesExact(pages, u);
  }

  /** No link ends with `.`, `,`, `;`, `:`, `)` or `]`, and stripping a link again changes nothing. */
  lemma LinksStripped(pages: seq<Page>, u: string)
    requires u in Links(pages)
    ensures CleanEnd(u) && RStrip(u) == u
  {
    LinksSoundAndComplete(pages, u);
    var i :| 0 <= i < |pages| && FromPage(pages[i], u);
    if FromAnnotation(pages[i].annotUris, u) {
      var j :| 0 <= j < |pages[i].annotUris| && Truthy(pages[i].annotUris[j]) && RStrip(pages[i].annotUris[j].value) == u;
    } else {
      var m :| m in FindAll(pages[i].text) && RStrip(m) == u;
    }
    RStripFixesClean(u);
  }

  // ----- order across pages -----

  lemma {:induction false} FlattenConcat(pages: seq<Page>, more: seq<Page>, f: Page -> seq<string>)
    ensures Flatten(pages + more, f) == Flatten(pages, f) + Flatten(more, f)
    decreases |more|
  {
    if more == [] {
      assert pages + more == pages;
    } else {
      var n := |more| - 1;
      FlattenConcat(pages, more[..n], f);
      assert (pages + more)[..|pages + more| - 1] == pages + more[..n];
      assert (pages + more)[|pages + more| - 1] == more[n];
    }
  }

  /** Pages are processed in order: the links of the first pages are a prefix of the links of the whole document. */
  lemma LinksOfEarlierPagesComeFirst(pages: seq<Page>, more: seq<Page>)
    ensures Links(pages) <= Links(pages + more)
  {
    FlattenConcat(pages, more, PageCandidates);
    AddAllConcat([], Candidates(pages), Candidates(more));
    AddAllProperties(Links(pages), Candidates(more));
  }

  /** Within a page, the annotation URIs are taken before the URL matches of the page text. */
  lemma LinksOfNextPage(pages: seq<Page>, p: Page)
    ensures Links(pages + [p]) == AddAll(AddAll(Links(pages), AnnotCandidates(p.annotUris)), TextCandidates(p.text))
  {
    var all := pages + [p];
    assert all[..|pages|] == pages && all[|pages|] == p && all[..|pages| + 1] == all;
    LinksAfterPage(all, |pages|);
  }

  // ----- the example text `see http://example.com).` -----

  lemma StripAllOne(m: string)
    ensures StripAll([m]) == [RStrip(m)]
  {
    assert [m][..0] == [];
  }

  lemma FlattenOne(p: Page, f: Page -> seq<string>)
    ensures Flatten([p], f) == f(p)
  {
    assert [p][..0] == [];
  }

  lemma AddAllOne(u: string)
    ensures AddAll([], [u]) == [u]
  {
    assert [u][..0] == [];
  }

  /** A page without annotations whose text has a single match with a clean end yields that match as its one link. */
  lemma OneMatchPageLinks(text: string, u: string)
    requires FindAll(text) == [u] && CleanEnd(u)
    ensures TextCandidates(text) == [u]
    ensures Links([Page([], text)]) == [u]
  {
    assert TextCandidates(text) == [u] by {
      StripAllOne(u);
      RStripFixesClean(u);
    }
    var page := Page([], text);
    assert PageCandidates(page) == [u];
    assert Candidates([page]) == [u] by {
      FlattenOne(page, PageCandidates);
    }
    AddAllOne(u);
  }

  /**
   * The sample sentence gives the single link `http://example.com`: the
   * match already stops before `)`, so the strip has nothing left to remove.
   */
  lemma SampleTextLinks()
    ensures TextCandidates(SampleText) == ["http://example.com"]
    ensures Links([Page([], SampleText)]) == ["http://example.com"]
  {
    var u := "http://example.com";
    assert CleanEnd(u) by {
      assert u[|u| - 1] == 'm';
    }
    assert FindAll(SampleText) == [u] by {
      SampleTextFindAll();
    }
    OneMatchPageLinks(SampleText, u);
  }
}
