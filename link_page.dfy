/**
 * The link-list page appended to the converted document: a page break, a
 * level-2 heading, then one paragraph per link, added only when there are links.
 * The document is modelled as its sequence of body blocks.
 */
module LinkPage {

  datatype Block =
    | PageBreak
    | Heading(text: string, level: nat)
    | Paragraph(text: string)
    | Table(rows: seq<seq<string>>)

  type Document = seq<Block>

  const LinkListTitle: string := "Daftar Link"
  const LinkListLevel: nat := 2

  /** One paragraph per link, in list order. */
  function Paragraphs(links: seq<string>): (ps: seq<Block>)
    decreases |links|
  {
    if links == [] then [] else Paragraphs(links[..|links| - 1]) + [Paragraph(links[|links| - 1])]
  }

  /** The page `doc.add_page_break(); doc.add_heading('Daftar Link', level=2); doc.add_paragraph(u)...` adds. */
  function LinkListPage(links: seq<string>): seq<Block> {
    [PageBreak, Heading(LinkListTitle, LinkListLevel)] + Paragraphs(links)
  }

  /** `if links:` append the page, otherwise leave the document as it is. */
  function WithLinkPage(doc: Document, links: seq<string>): Document {
    if links == [] then doc else doc + LinkListPage(links)
  }

  /** The append as the source does it: the page break and heading, then a loop adding one paragraph per link. */
  method AppendLinkList(doc: Document, links: seq<string>) returns (out: Document)
    ensures out == WithLinkPage(doc, links)
  {
    out := doc;
    if links != [] {
      out := out + [PageBreak];
      out := out + [Heading(LinkListTitle, LinkListLevel)];
      var i := 0;
      while i < |links|
        invariant 0 <= i <= |links|
        invariant out == doc + [PageBreak, Heading(LinkListTitle, LinkListLevel)] + Paragraphs(links[..i])
      {
        assert links[..i + 1][..i] == links[..i];
        out := out + [Paragraph(links[i])];
        i := i + 1;
      }
      assert links[..i] == links;
    }
  }

  lemma {:induction false} ParagraphsAt(links: seq<string>)
    ensures |Paragraphs(links)| == |links|
    ensures forall k :: 0 <= k < |links| ==> Paragraphs(links)[k] == Paragraph(links[k])
    decreases |links|
  {
    if links != [] {
      var init := links[..|links| - 1];
      ParagraphsAt(init);
    }
  }

  /** The document grows exactly when there are links; with none, not even a page break is added. */
  lemma LinkPageAddedIffLinks(doc: Document, links: seq<string>)
    ensures WithLinkPage(doc, links) == doc <==> links == []
  {
    if links != [] {
      assert |WithLinkPage(doc, links)| == |doc| + |LinkListPage(links)| > |doc|;
    }
  }

  /**
   * With links, the original content is kept, then come a page break, the
   * heading and one paragraph per link in list order, and nothing else.
   */
  lemma LinkPageLayout(doc: Document, links: seq<string>)
    requires links != []
    ensures var out := WithLinkPage(doc, links);
      && |out| == |doc| + 2 + |links|
      && out[..|doc|] == doc
      && out[|doc|] == PageBreak
      && out[|doc| + 1] == Heading(LinkListTitle, LinkListLevel)
      && forall k :: 0 <= k < |links| ==> out[|doc| + 2 + k] == Paragraph(links[k])
  {
    ParagraphsAt(links);
    var out := WithLinkPage(doc, links);
    forall k | 0 <= k < |links| ensures out[|doc| + 2 + k] == Paragraph(links[k]) {
      assert out[|doc| + 2 + k] == Paragraphs(links)[k];
    }
  }
}
