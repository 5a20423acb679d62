/**
 * The rendering half of `pdf_to_article_html` in app.py: one `<section>` per
 * page, holding the page's paragraphs and then the figures for its images,
 * the sections joined by newlines inside a fixed HTML document shell.
 *
 * Extraction is abstracted: each page arrives as the text PyMuPDF returned
 * for it and, in order, the outcome of encoding each of its images.
 */
module ArticleRender {
  import opened Text
  import opened HtmlEscape
  import opened ParagraphSplit
  import opened DocumentShell

  /** What happened to one image of a page: it was encoded to PNG and then to
      base64, or some step of that raised. */
  datatype ImageOutcome = Encoded(base64: string) | Failed

  /** One page as extraction delivers it. */
  datatype PageRecord = PageRecord(rawText: string, images: seq<ImageOutcome>)

  function DefaultTitle(): string
  {
    "Converted PDF"
  }

  // Figures.

  /** The human page number label, `Page {page_index+1}` in the source. */
  function PageLabel(k: nat): string
  {
    "Page " + NatToString(k)
  }

  function FigureOpen(): string
  {
    "<figure><img src=\"data:image/png;base64,"
  }

  /** The alternative text attribute of a figure on page `k`. */
  function AltAttribute(k: nat): string
  {
    "alt=\"" + PageLabel(k) + " image\""
  }

  /** The figure for one encoded image: the payload as a PNG data URL, then the
      alternative text naming the page. */
  function FigureHtml(b64: string, k: nat): string
  {
    FigureOpen() + b64 + "\" " + AltAttribute(k) + "></figure>"
  }

  /** A figure embeds its payload verbatim right after the data URL prefix, and
      carries the alternative text of its page. */
  lemma FigureAttributes(b64: string, k: nat)
    ensures var f := FigureHtml(b64, k);
            |FigureOpen()| + |b64| <= |f| && f[|FigureOpen()|..|FigureOpen()| + |b64|] == b64
    ensures Contains(FigureHtml(b64, k), AltAttribute(k))
  {
    var f := FigureHtml(b64, k);
    var rest := "\" " + AltAttribute(k) + "></figure>";
    assert f == FigureOpen() + b64 + rest;
    assert f[|FigureOpen()|..] == b64 + rest;
    ContainsMiddle(FigureOpen() + b64 + "\" ", AltAttribute(k), "></figure>");
  }

  /** How many images the page's image loop turns into figures: all of them up
      to the first failure, because the `try` wraps the whole loop and the first
      exception ends it. */
  function KeptCount(images: seq<ImageOutcome>): (n: nat)
    ensures n <= |images|
    ensures forall m :: 0 <= m < n ==> images[m].Encoded?
    ensures n < |images| ==> images[n].Failed?
  {
    if images == [] || images[0].Failed? then 0 else 1 + KeptCount(images[1..])
  }

  /** The `images_html` list the image loop leaves behind. */
  function PageFigures(images: seq<ImageOutcome>, k: nat): seq<string>
  {
    seq(KeptCount(images), m requires 0 <= m < KeptCount(images) => FigureHtml(images[m].base64, k))
  }

  /** The image loop of one page, with the `try` around it: figures are
      appended in image order until an image fails, and a failure ends the
      loop without discarding what was appended before it. */
  method CollectFigures(images: seq<ImageOutcome>, pageNumber: nat) returns (imagesHtml: seq<string>)
    ensures imagesHtml == PageFigures(images, pageNumber)
  {
    imagesHtml := [];
    var j := 0;
    while j < |images|
      invariant j <= KeptCount(images)
      invariant |imagesHtml| == j
      invariant forall m :: 0 <= m < j ==> imagesHtml[m] == FigureHtml(images[m].base64, pageNumber)
    {
      match images[j]
      case Failed =>
        break;
      case Encoded(b64) =>
        imagesHtml := imagesHtml + [FigureHtml(b64, pageNumber)];
        j := j + 1;
    }
  }

  /** With every image encoded, there is one figure per image, in image order. */
  lemma FiguresAllEncoded(images: seq<ImageOutcome>, k: nat)
    requires forall m :: 0 <= m < |images| ==> images[m].Encoded?
    ensures |PageFigures(images, k)| == |images|
    ensures forall m :: 0 <= m < |images| ==> PageFigures(images, k)[m] == FigureHtml(images[m].base64, k)
  {
  }

  /** An image that fails drops itself and every later image of the page; the
      figures of the images before it are kept. */
  lemma FiguresStopAtFailure(before: seq<ImageOutcome>, after: seq<ImageOutcome>, k: nat)
    requires forall m :: 0 <= m < |before| ==> before[m].Encoded?
    ensures PageFigures(before + [Failed] + after, k) == PageFigures(before, k)
  {
    var images := before + [Failed] + after;
    assert images[|before|].Failed?;
    assert forall m :: 0 <= m < |before| ==> images[m] == before[m];
    FiguresAllEncoded(before, k);
  }

  // Sections.

  function SectionOpen(k: nat): string
  {
    "<section aria-label='" + PageLabel(k) + "'>"
  }

  function SectionClose(): string
  {
    "</section>"
  }

  /** The section of page number `k` (counted from 1): the page text is stripped,
      escaped and split into paragraphs, whose elements come first, followed by
      the page's figures. */
  function SectionHtml(k: nat, page: PageRecord): string
  {
    SectionOpen(k) + ParagraphsHtml(Paragraphs(Escape(Strip(page.rawText))))
    + Join("", PageFigures(page.images, k)) + SectionClose()
  }

  /** A section's paragraphs are the raw text's lines with non-whitespace
      content, each stripped and escaped, in line order; its figures follow them. */
  lemma SectionContents(k: nat, page: PageRecord)
    ensures SectionHtml(k, page)
            == SectionOpen(k) + ParagraphsHtml(EscapeAll(Paragraphs(page.rawText)))
               + Join("", PageFigures(page.images, k)) + SectionClose()
    ensures forall i :: 0 <= i < |Paragraphs(page.rawText)| ==>
              WellEscaped(EscapeAll(Paragraphs(page.rawText))[i])
              && Unescape(EscapeAll(Paragraphs(page.rawText))[i]) == Paragraphs(page.rawText)[i]
  {
    PageParagraphs(page.rawText);
    EscapeAllDecodes(Paragraphs(page.rawText));
  }

  /** A page with no images, or whose first image fails, gets a section with
      its paragraphs and nothing else. */
  lemma SectionWithoutFigures(k: nat, page: PageRecord)
    requires page.images == [] || page.images[0].Failed?
    ensures SectionHtml(k, page)
            == SectionOpen(k) + ParagraphsHtml(EscapeAll(Paragraphs(page.rawText))) + SectionClose()
  {
    var paras := ParagraphsHtml(EscapeAll(Paragraphs(page.rawText)));
    calc {
      SectionHtml(k, page);
      { SectionContents(k, page); }
      SectionOpen(k) + paras + Join("", PageFigures(page.images, k)) + SectionClose();
      { assert PageFigures(page.images, k) == []; }
      SectionOpen(k) + paras + [] + SectionClose();
      SectionOpen(k) + paras + SectionClose();
    }
  }

  /** Distinct page numbers give distinct section labels. */
  lemma SectionLabelsDistinct(i: nat, j: nat)
    requires SectionOpen(i) == SectionOpen(j)
    ensures i == j
  {
    var pre := "<section aria-label='Page ";
    var si, sj := SectionOpen(i), SectionOpen(j);
    assert si == pre + NatToString(i) + "'>";
    assert sj == pre + NatToString(j) + "'>";
    assert NatToString(i) == si[|pre|..|si| - 2];
    assert NatToString(j) == sj[|pre|..|sj| - 2];
    NatToStringInjective(i, j);
  }

  // Newline structure of the article body.

  predicate IsBase64Char(c: char)
  {
    ('A' <= c <= 'Z') || ('a' <= c <= 'z') || ('0' <= c <= '9') || c == '+' || c == '/' || c == '='
  }

  /** Every encoded payload of the page is in the base64 alphabet, as the output
      of `base64.b64encode` is. */
  predicate PayloadsBase64(images: seq<ImageOutcome>)
  {
    forall m :: 0 <= m < |images| ==> images[m].Encoded? ==>
      forall i :: 0 <= i < |images[m].base64| ==> IsBase64Char(images[m].base64[i])
  }

  lemma DigitsNoNewline(s: string)
    requires IsDigits(s)
    ensures '\n' !in s
  {
    forall i | 0 <= i < |s|
      ensures s[i] != '\n'
    {
      assert '0' <= s[i] <= '9';
    }
  }

  lemma Base64NoNewline(s: string)
    requires forall i :: 0 <= i < |s| ==> IsBase64Char(s[i])
    ensures '\n' !in s
  {
    forall i | 0 <= i < |s|
      ensures s[i] != '\n'
    {
      assert IsBase64Char(s[i]);
    }
  }

  lemma FigureNoNewline(b64: string, k: nat)
    requires forall i :: 0 <= i < |b64| ==> IsBase64Char(b64[i])
    ensures '\n' !in FigureHtml(b64, k)
  {
    DigitsNoNewline(NatToString(k));
    Base64NoNewline(b64);
    assert '\n' !in FigureOpen();
    assert '\n' !in AltAttribute(k);
  }

  lemma FiguresNoNewline(images: seq<ImageOutcome>, k: nat)
    requires PayloadsBase64(images)
    ensures '\n' !in Join("", PageFigures(images, k))
  {
    var figs := PageFigures(images, k);
    forall m | 0 <= m < |figs|
      ensures '\n' !in figs[m]
    {
      FigureNoNewline(images[m].base64, k);
    }
    JoinExcludes("", figs, '\n');
  }

  lemma SectionOpenNoNewline(k: nat)
    ensures '\n' !in SectionOpen(k)
  {
    DigitsNoNewline(NatToString(k));
    assert '\n' !in PageLabel(k);
  }

  /** A section is a single line when the payloads are base64 text. */
  lemma SectionNoNewline(k: nat, page: PageRecord)
    requires PayloadsBase64(page.images)
    ensures '\n' !in SectionHtml(k, page)
  {
    var paras := Paragraphs(Escape(Strip(page.rawText)));
    SectionOpenNoNewline(k);
    ParagraphsShape(Escape(Strip(page.rawText)));
    ParagraphsHtmlNoNewline(paras);
    FiguresNoNewline(page.images, k);
    assert '\n' !in SectionClose();
  }

  /** The sections of a document, page numbers counted from 1. */
  function Sections(pages: seq<PageRecord>): seq<string>
  {
    seq(|pages|, i requires 0 <= i < |pages| => SectionHtml(i + 1, pages[i]))
  }

  /** `"\n".join(sections)`. */
  function ArticleBody(pages: seq<PageRecord>): string
  {
    Join("\n", Sections(pages))
  }

  lemma Delimited(a: string, p: string, f: string, c: string)
    ensures var s := a + p + f + c;
            |a| + |c| <= |s| && s[..|a|] == a && s[|s| - |c|..] == c
  {
    var s := a + p + f + c;
    assert s[..|a|] == a;
    assert s[|s| - |c|..] == c;
  }

  lemma SectionDelimitedParts(k: nat, paras: string, figs: string)
    ensures var s := SectionOpen(k) + paras + figs + SectionClose();
            |SectionOpen(k)| + |SectionClose()| <= |s|
            && s[..|SectionOpen(k)|] == SectionOpen(k) && s[|s| - |SectionClose()|..] == SectionClose()
  {
    Delimited(SectionOpen(k), paras, figs, SectionClose());
  }

  /** Each section opens with its page's label and ends with the closing tag. */
  lemma SectionDelimited(k: nat, page: PageRecord)
    ensures var s := SectionHtml(k, page);
            |SectionOpen(k)| + |SectionClose()| <= |s|
            && s[..|SectionOpen(k)|] == SectionOpen(k) && s[|s| - |SectionClose()|..] == SectionClose()
  {
    SectionDelimitedParts(k, ParagraphsHtml(Paragraphs(Escape(Strip(page.rawText)))),
                          Join("", PageFigures(page.images, k)));
  }

  lemma SectionAtNoNewline(pages: seq<PageRecord>, i: nat)
    requires i < |pages| && PayloadsBase64(pages[i].images)
    ensures '\n' !in Sections(pages)[i]
  {
    SectionNoNewline(i + 1, pages[i]);
  }

  lemma SectionsNoNewline(pages: seq<PageRecord>)
    requires forall i :: 0 <= i < |pages| ==> PayloadsBase64(pages[i].images)
    ensures forall i :: 0 <= i < |Sections(pages)| ==> '\n' !in Sections(pages)[i]
  {
    forall i | 0 <= i < |Sections(pages)|
      ensures '\n' !in Sections(pages)[i]
    {
      SectionAtNoNewline(pages, i);
    }
  }

  /** The article body of a non-empty document has one line per page, in page
      order: line `i` is the section of page `i + 1`. */
  lemma ArticleBodyLines(pages: seq<PageRecord>)
    requires |pages| >= 1
    requires forall i :: 0 <= i < |pages| ==> PayloadsBase64(pages[i].images)
    ensures SplitLines(ArticleBody(pages)) == Sections(pages)
  {
    SectionsNoNewline(pages);
    JoinThenSplit(Sections(pages));
  }

  function Document(pages: seq<PageRecord>, title: string): string
  {
    Shell(title, ArticleBody(pages))
  }

  lemma TakeSnoc<T>(xs: seq<T>, n: nat)
    requires n < |xs|
    ensures xs[..n + 1] == xs[..n] + [xs[n]]
  {
  }

  /** The body of the page loop: strip the page text, collect the figures,
      escape the text, split it into paragraphs and assemble the section. */
  method RenderPage(page: PageRecord, pageNumber: nat) returns (secHtml: string)
    ensures secHtml == SectionHtml(pageNumber, page)
  {
    var text := Strip(page.rawText);
    var imagesHtml := CollectFigures(page.images, pageNumber);
    var safeText := Escape(text);
    var paragraphs := Paragraphs(safeText);
    var pHtml := ParagraphsHtml(paragraphs);
    secHtml := SectionOpen(pageNumber) + pHtml + Join("", imagesHtml) + SectionClose();
  }

  /** The page loop of `pdf_to_article_html`: one section per page, in page
      order, page numbers counted from 1. */
  method RenderSections(pages: seq<PageRecord>) returns (sections: seq<string>)
    ensures sections == Sections(pages)
  {
    sections := [];
    var pageIndex := 0;
    while pageIndex < |pages|
      invariant pageIndex <= |pages|
      invariant sections == Sections(pages)[..pageIndex]
    {
      var secHtml := RenderPage(pages[pageIndex], pageIndex + 1);
      assert secHtml == Sections(pages)[pageIndex];
      TakeSnoc(Sections(pages), pageIndex);
      sections := sections + [secHtml];
      pageIndex := pageIndex + 1;
    }
    assert Sections(pages)[..|pages|] == Sections(pages);
  }

  /** `pdf_to_article_html`, given the extracted pages: the sections are joined
      by newlines into the article body of the document shell. */
  method PdfToArticleHtml(pages: seq<PageRecord>, title: string := DefaultTitle()) returns (html: string)
    ensures html == Document(pages, title)
  {
    var sections := RenderSections(pages);
    var articleInner := Join("\n", sections);
    html := Shell(title, articleInner);
  }

  lemma NoSections()
    ensures ArticleBody([]) == []
  {
    assert Sections([]) == [];
  }

  /** A document without pages is the shell with nothing in the article body. */
  lemma EmptyDocument(title: string)
    ensures ArticleBody([]) == []
    ensures Document([], title) == ShellBeforeBody(title) + AfterBody()
  {
    NoSections();
    ShellEmpty(title);
  }

  /** The title appears verbatim, unescaped, as the document title and as the
      top-level heading. */
  lemma TitleVerbatim(pages: seq<PageRecord>, title: string)
    ensures Contains(Document(pages, title), "<title>" + title + "</title>")
    ensures Contains(Document(pages, title), "<h1>" + title + "</h1>")
  {
    ShellTitle(title, ArticleBody(pages));
  }
}
