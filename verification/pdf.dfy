/** `convert_pdf_to_markdown_with_placeholders`: a header per page, the page's
    text when it has any, one placeholder per detected image while images
    remain, the unused images after the last page, all joined with blank lines. */
module Pdf {
  import opened Text
  import opened Scan
  import opened Substitution
  import opened Composer

  /** A page as pdfplumber reports it: its text (empty when there is none) and
      the number of images it lists. */
  datatype Page = Page(text: string, imageCount: nat)

  /** The header line of page `number`, counted from 1. */
  function Header(number: nat): string {
    UnitHeader("--- 第 ", number, " 页 ---\n")
  }

  /** Page `number`: its header, its text if non-empty, and as many images as it
      lists. */
  function PageUnit(p: Page, number: nat): (u: Unit)
    ensures TextOnly(u.text)
    ensures |u.text| == if p.text == "" then 1 else 2
    ensures u.text[0] == TextLine(Header(number))
    ensures p.text != "" ==> u.text[1] == TextLine(p.text)
    ensures u.wants == p.imageCount
  {
    Unit([TextLine(Header(number))] + (if p.text == "" then [] else [TextLine(p.text)]), p.imageCount)
  }

  function Units(pages: seq<Page>): (units: seq<Unit>)
    ensures |units| == |pages|
    ensures forall k :: 0 <= k < |pages| ==> units[k] == PageUnit(pages[k], k + 1)
  {
    seq(|pages|, k requires 0 <= k < |pages| => PageUnit(pages[k], k + 1))
  }

  /** The converter's result: the lines joined with blank lines, each
      placeholder written on a line of its own. Without the cursor: page `k`'s
      block holds the images from `Position(k)` up to `Position(k + 1)`, and
      the images no page claimed follow the last page. */
  function Convert(pages: seq<Page>, images: seq<string>): (markdown: string)
    ensures var units := Units(pages);
      markdown == MarkdownText(
        Concat(Blocks(units, images, 0)) + ImageLines(images[Position(units, images, 0, |units|)..]), "\n", "\n\n")
  {
    Placement(Units(pages), images, 0);
    MarkdownText(Compose(Units(pages), images, 0), "\n", "\n\n")
  }

  /** The images listed by the first `k` pages. */
  function ListedBefore(pages: seq<Page>, k: nat): nat
    requires k <= |pages|
    decreases k
  {
    if k == 0 then 0 else pages[0].imageCount + ListedBefore(pages[1..], k - 1)
  }

  lemma {:induction false} WantedIsListed(units: seq<Unit>, pages: seq<Page>, k: nat)
    requires |units| == |pages| && k <= |pages|
    requires forall j :: 0 <= j < |pages| ==> units[j].wants == pages[j].imageCount
    ensures WantedBefore(units, k) == ListedBefore(pages, k)
    decreases k
  {
    if k > 0 {
      WantedIsListed(units[1..], pages[1..], k - 1);
    }
  }

  /** Page `k` receives the images from the position the earlier pages' lists
      reach (as far as there are images), `min(imageCount, remaining)` of them. */
  lemma PageImages(pages: seq<Page>, images: seq<string>, k: nat)
    requires k < |pages|
    ensures Position(Units(pages), images, 0, k) == Min(ListedBefore(pages, k), |images|)
    ensures Position(Units(pages), images, 0, k + 1) - Position(Units(pages), images, 0, k)
      == Min(pages[k].imageCount, |images| - Position(Units(pages), images, 0, k))
  {
    var units := Units(pages);
    WantedIsListed(units, pages, k);
    ShareOfUnit(units, images, 0, k);
  }

  /** Page `k` of the converted document: its header numbered `k + 1`, its
      text when it has any, then the images from where the earlier pages'
      lists reach, as many as the page lists and as far as there are images. */
  lemma PageBlock(pages: seq<Page>, images: seq<string>, k: nat)
    requires k < |pages|
    ensures Blocks(Units(pages), images, 0)[k]
      == [TextLine("--- 第 " + NatToString(k + 1) + " 页 ---\n")]
         + (if pages[k].text == "" then [] else [TextLine(pages[k].text)])
         + ImageLines(images[Min(ListedBefore(pages, k), |images|)..Min(ListedBefore(pages, k) + pages[k].imageCount, |images|)])
  {
    hide *;
    PagePositions(pages, images, k);
    PageText(pages, k);
    BlockAt(Units(pages), images, k);
  }

  lemma PagePositions(pages: seq<Page>, images: seq<string>, k: nat)
    requires k < |pages|
    ensures Position(Units(pages), images, 0, k) == Min(ListedBefore(pages, k), |images|)
    ensures Position(Units(pages), images, 0, k + 1) == Min(ListedBefore(pages, k) + pages[k].imageCount, |images|)
  {
    var units := Units(pages);
    WantedIsListed(units, pages, k);
    WantedBeforeStep(units, k);
  }

  lemma PageText(pages: seq<Page>, k: nat)
    requires k < |pages|
    ensures Units(pages)[k].text
      == [TextLine("--- 第 " + NatToString(k + 1) + " 页 ---\n")]
         + (if pages[k].text == "" then [] else [TextLine(pages[k].text)])
  {
    assert Units(pages)[k] == PageUnit(pages[k], k + 1);
  }

  lemma UnitsClean(pages: seq<Page>)
    requires forall k :: 0 <= k < |pages| ==> Clean(pages[k].text)
    ensures CleanUnits(Units(pages))
  {
    forall k | 0 <= k < |pages|
      ensures Parsable(Units(pages)[k].text)
    {
      CleanWithoutBang(Header(k + 1));
    }
  }

  /** Scanning the converted document finds the images in order, each once,
      when no page text holds placeholder syntax and no path holds `)`. */
  lemma ConvertPlaceholders(pages: seq<Page>, images: seq<string>)
    requires forall k :: 0 <= k < |pages| ==> Clean(pages[k].text)
    requires ValidPaths(images)
    ensures Bodies(Parse(PlaceholderPattern, Convert(pages, images))) == images
  {
    UnitsClean(pages);
    ComposedPlaceholders(Units(pages), images, "\n", "\n\n");
  }
}
