/** `convert_pptx_to_markdown_with_placeholders`: a header per slide, a line per
    shape with text (title placeholders as `##` headings), one placeholder for a
    slide holding a picture while images remain, the unused images after the
    last slide, all joined with newlines. */
module Pptx {
  import opened Wrappers
  import opened Text
  import opened Scan
  import opened Substitution
  import opened Composer

  /** A shape as python-pptx reports it: its text if it has a text frame, its
      placeholder type if it is a placeholder, and its shape type. */
  datatype Shape = Shape(text: Option<string>, placeholderType: Option<int>, shapeType: int)

  datatype Slide = Slide(shapes: seq<Shape>)

  /** The shape type python-pptx gives pictures. */
  const Picture := 13
  /** The placeholder type of a title. */
  const TitlePlaceholder := 1

  /** The header line of slide `number`, counted from 1. */
  function Header(number: nat): string {
    UnitHeader("--- 幻灯片 ", number, " ---")
  }

  predicate HasText(s: Shape) {
    s.text.Some? && !IsBlank(s.text.value)
  }

  predicate IsTitle(s: Shape) {
    s.placeholderType == Some(TitlePlaceholder)
  }

  /** The line of a shape with text: a `##` heading set off by newlines for a
      title placeholder, the stripped text otherwise. */
  function ShapeLine(s: Shape): (line: string)
    requires HasText(s)
    ensures IsTitle(s) ==> line == "\n## " + Strip(s.text.value) + "\n"
    ensures !IsTitle(s) ==> line == Strip(s.text.value) + "\n"
    ensures IsTitle(s) <==> line[0] == '\n'
  {
    var text := Strip(s.text.value);
    if IsTitle(s) then "\n## " + text + "\n" else text + "\n"
  }

  /** The lines of the shapes with text, in shape order. */
  function ShapeLines(shapes: seq<Shape>): (lines: seq<Line>)
    ensures TextOnly(lines)
    ensures |lines| <= |shapes|
    ensures (forall k :: 0 <= k < |shapes| ==> !HasText(shapes[k])) <==> lines == []
    decreases |shapes|
  {
    if |shapes| == 0 then []
    else
      var rest := ShapeLines(shapes[1..]);
      assert forall k :: 0 < k < |shapes| ==> shapes[k] == shapes[1..][k - 1];
      if HasText(shapes[0]) then [TextLine(ShapeLine(shapes[0]))] + rest else rest
  }

  lemma {:induction false} ShapeLinesAppend(a: seq<Shape>, b: seq<Shape>)
    ensures ShapeLines(a + b) == ShapeLines(a) + ShapeLines(b)
    decreases |a|
  {
    if |a| == 0 {
      assert a + b == b;
    } else {
      assert (a + b)[1..] == a[1..] + b;
      ShapeLinesAppend(a[1..], b);
    }
  }

  /** The slide holds a shape of the picture type. */
  predicate HasPicture(slide: Slide) {
    exists k :: 0 <= k < |slide.shapes| && slide.shapes[k].shapeType == Picture
  }

  /** Slide `number`: its header, its shape lines, and one image wanted when it
      holds a picture. */
  function SlideUnit(slide: Slide, number: nat): (u: Unit)
    ensures TextOnly(u.text)
    ensures |u.text| == 1 + |ShapeLines(slide.shapes)|
    ensures u.text[0] == TextLine(Header(number))
    ensures u.text[1..] == ShapeLines(slide.shapes)
    ensures u.wants == if HasPicture(slide) then 1 else 0
  {
    Unit([TextLine(Header(number))] + ShapeLines(slide.shapes), if HasPicture(slide) then 1 else 0)
  }

  function Units(slides: seq<Slide>): (units: seq<Unit>)
    ensures |units| == |slides|
    ensures forall k :: 0 <= k < |slides| ==> units[k] == SlideUnit(slides[k], k + 1)
  {
    seq(|slides|, k requires 0 <= k < |slides| => SlideUnit(slides[k], k + 1))
  }

  /** The converter's result: the lines joined with newlines, each placeholder
      on a line of its own. Without the cursor: slide `k`'s block holds the
      images from `Position(k)` up to `Position(k + 1)`, and the images no
      slide claimed follow the last slide. */
  function Convert(slides: seq<Slide>, images: seq<string>): (markdown: string)
    ensures var units := Units(slides);
      markdown == MarkdownText(
        Concat(Blocks(units, images, 0)) + ImageLines(images[Position(units, images, 0, |units|)..]), "\n", "\n")
  {
    Placement(Units(slides), images, 0);
    MarkdownText(Compose(Units(slides), images, 0), "\n", "\n")
  }

  /** The number of slides with a picture among the first `k`. */
  function PictureSlidesBefore(slides: seq<Slide>, k: nat): nat
    requires k <= |slides|
    decreases k
  {
    if k == 0 then 0 else (if HasPicture(slides[0]) then 1 else 0) + PictureSlidesBefore(slides[1..], k - 1)
  }

  lemma {:induction false} WantedIsPictures(units: seq<Unit>, slides: seq<Slide>, k: nat)
    requires |units| == |slides| && k <= |slides|
    requires forall j :: 0 <= j < |slides| ==> units[j].wants == if HasPicture(slides[j]) then 1 else 0
    ensures WantedBefore(units, k) == PictureSlidesBefore(slides, k)
    decreases k
  {
    if k > 0 {
      WantedIsPictures(units[1..], slides[1..], k - 1);
    }
  }

  /** Slide `k` receives one image exactly when it holds a picture and images
      remain after one for each earlier slide with a picture; however many
      pictures it holds, it receives at most one. */
  lemma SlideImages(slides: seq<Slide>, images: seq<string>, k: nat)
    requires k < |slides|
    ensures Position(Units(slides), images, 0, k) == Min(PictureSlidesBefore(slides, k), |images|)
    ensures Position(Units(slides), images, 0, k + 1) - Position(Units(slides), images, 0, k)
      == if HasPicture(slides[k]) && Position(Units(slides), images, 0, k) < |images| then 1 else 0
  {
    var units := Units(slides);
    WantedIsPictures(units, slides, k);
    ShareOfUnit(units, images, 0, k);
  }

  /** Slide `k` of the converted document: its header numbered `k + 1`, the
      lines of its shapes with text, then the next image when it holds a
      picture and one remains after those of the earlier picture slides. */
  lemma SlideBlock(slides: seq<Slide>, images: seq<string>, k: nat)
    requires k < |slides|
    ensures var before := PictureSlidesBefore(slides, k);
      Blocks(Units(slides), images, 0)[k]
      == [TextLine("--- 幻灯片 " + NatToString(k + 1) + " ---")]
         + ShapeLines(slides[k].shapes)
         + ImageLines(images[Min(before, |images|)..Min(before + (if HasPicture(slides[k]) then 1 else 0), |images|)])
  {
    var units := Units(slides);
    WantedIsPictures(units, slides, k);
    WantedBeforeStep(units, k);
    BlockAt(units, images, k);
    assert units[k] == SlideUnit(slides[k], k + 1);
  }

  lemma ShapeLineClean(s: Shape)
    requires HasText(s) && Clean(s.text.value)
    ensures Clean(ShapeLine(s))
  {
    var text := Strip(s.text.value);
    CleanStrip(s.text.value);
    CleanWithNewline(text);
    if IsTitle(s) {
      CleanAfterBangFree("\n## ", text + "\n");
      assert "\n## " + text + "\n" == "\n## " + (text + "\n");
    }
  }

  ghost predicate CleanShapes(shapes: seq<Shape>) {
    forall k :: 0 <= k < |shapes| && shapes[k].text.Some? ==> Clean(shapes[k].text.value)
  }

  lemma {:induction false} ShapeLinesClean(shapes: seq<Shape>)
    requires CleanShapes(shapes)
    ensures Parsable(ShapeLines(shapes))
    decreases |shapes|
  {
    if |shapes| > 0 {
      ShapeLinesClean(shapes[1..]);
      if HasText(shapes[0]) {
        ShapeLineClean(shapes[0]);
        ParsableAppend([TextLine(ShapeLine(shapes[0]))], ShapeLines(shapes[1..]));
      }
    }
  }

  lemma UnitsClean(slides: seq<Slide>)
    requires forall k :: 0 <= k < |slides| ==> CleanShapes(slides[k].shapes)
    ensures CleanUnits(Units(slides))
  {
    forall k | 0 <= k < |slides|
      ensures Parsable(Units(slides)[k].text)
    {
      CleanWithoutBang(Header(k + 1));
      ShapeLinesClean(slides[k].shapes);
      ParsableAppend([TextLine(Header(k + 1))], ShapeLines(slides[k].shapes));
    }
  }

  /** Scanning the converted presentation finds the images in order, each once,
      when no shape text holds placeholder syntax and no path holds `)`. */
  lemma ConvertPlaceholders(slides: seq<Slide>, images: seq<string>)
    requires forall k :: 0 <= k < |slides| ==> CleanShapes(slides[k].shapes)
    requires ValidPaths(images)
    ensures Bodies(Parse(PlaceholderPattern, Convert(slides, images))) == images
  {
    UnitsClean(slides);
    ComposedPlaceholders(Units(slides), images, "\n", "\n");
  }
}
