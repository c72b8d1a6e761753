/** What the positional composers for DOCX, PDF and PPTX share: a list of
    Markdown lines built unit by unit (paragraph, page or slide), each unit's
    text followed by as many of the next unused images as it asks for and as
    remain (`image_idx` in the Python code), the unclaimed images appended at
    the end, and the lines joined into one string. */
module Composer {
  import opened Text
  import opened Scan
  import opened Substitution

  /** One entry of `markdown_lines`: a piece of text, or the placeholder of an image. */
  datatype Line = TextLine(s: string) | ImageLine(path: string)

  /** The image paths of the placeholder lines, in order. */
  function Images(lines: seq<Line>): seq<string>
    decreases |lines|
  {
    if |lines| == 0 then []
    else if lines[0].ImageLine? then [lines[0].path] + Images(lines[1..])
    else Images(lines[1..])
  }

  lemma {:induction false} ImagesAppend(a: seq<Line>, b: seq<Line>)
    ensures Images(a + b) == Images(a) + Images(b)
    decreases |a|
  {
    if |a| == 0 {
      assert a + b == b;
    } else {
      assert (a + b)[1..] == a[1..] + b;
      ImagesAppend(a[1..], b);
    }
  }

  /** A placeholder line per path, in order. */
  function ImageLines(paths: seq<string>): (lines: seq<Line>)
    ensures |lines| == |paths|
    ensures Images(lines) == paths
    decreases |paths|
  {
    if |paths| == 0 then []
    else
      var lines := [ImageLine(paths[0])] + ImageLines(paths[1..]);
      assert lines[1..] == ImageLines(paths[1..]);
      lines
  }

  predicate TextOnly(lines: seq<Line>) {
    forall k :: 0 <= k < |lines| ==> lines[k].TextLine?
  }

  lemma {:induction false} ImagesOfTextOnly(lines: seq<Line>)
    requires TextOnly(lines)
    ensures Images(lines) == []
    decreases |lines|
  {
    if |lines| > 0 {
      ImagesOfTextOnly(lines[1..]);
    }
  }

  /** A paragraph, page or slide as the composer sees it: its text lines and the
      number of images detected in it. */
  datatype Unit = Unit(text: seq<Line>, wants: nat)

  /** The header line of page or slide `number`: the number between two fixed
      texts. The number's digits hold no `!`, so the header holds one exactly
      when the fixed texts do. */
  function UnitHeader(before: string, number: nat, after: string): (h: string)
    ensures |h| > |before| + |after|
    ensures BangFree(h) <==> BangFree(before) && BangFree(after)
  {
    var digits := NatToString(number);
    BangFreeDigits(number);
    var h := before + digits + after;
    assert forall i :: 0 <= i < |before| ==> h[i] == before[i];
    assert forall i :: 0 <= i < |after| ==> h[|before| + |digits| + i] == after[i];
    h
  }

  predicate UnitsTextOnly(units: seq<Unit>) {
    forall k :: 0 <= k < |units| ==> TextOnly(units[k].text)
  }

  /** The loop over units with the cursor `cursor` into `images`: each unit's text,
      then up to `wants` unused images, and after the last unit every image still
      unused. */
  function Compose(units: seq<Unit>, images: seq<string>, cursor: nat): (lines: seq<Line>)
    requires cursor <= |images|
    ensures UnitsTextOnly(units) ==> Images(lines) == images[cursor..]
    decreases |units|
  {
    if |units| == 0 then ImageLines(images[cursor..])
    else
      var next := cursor + Min(units[0].wants, |images| - cursor);
      var rest := Compose(units[1..], images, next);
      var lines := units[0].text + ImageLines(images[cursor..next]) + rest;
      if UnitsTextOnly(units) then
        ImagesOfTextOnly(units[0].text);
        ImagesOfParts(units[0].text, ImageLines(images[cursor..next]), rest, images[cursor..next], images[next..]);
        SliceJoin(images, cursor, next);
        lines
      else lines
  }

  lemma ImagesOfParts(text: seq<Line>, placed: seq<Line>, rest: seq<Line>, a: seq<string>, b: seq<string>)
    requires Images(text) == [] && Images(placed) == a && Images(rest) == b
    ensures Images(text + placed + rest) == a + b
  {
    ImagesAppend(text, placed);
    ImagesAppend(text + placed, rest);
  }

  lemma SliceJoin(xs: seq<string>, i: nat, j: nat)
    requires i <= j <= |xs|
    ensures xs[i..j] + xs[j..] == xs[i..]
  {
  }

  /** The images requested by the first `k` units. */
  function WantedBefore(units: seq<Unit>, k: nat): nat
    requires k <= |units|
    decreases k
  {
    if k == 0 then 0 else units[0].wants + WantedBefore(units[1..], k - 1)
  }

  /** Closed form of the cursor when the composer reaches unit `k`: everything
      requested so far, capped by the number of images. */
  function Position(units: seq<Unit>, images: seq<string>, cursor: nat, k: nat): nat
    requires k <= |units|
  {
    Min(cursor + WantedBefore(units, k), |images|)
  }

  function Concat(blocks: seq<seq<Line>>): seq<Line>
    decreases |blocks|
  {
    if |blocks| == 0 then [] else blocks[0] + Concat(blocks[1..])
  }

  /** Unit `k` followed by the images it receives. */
  function Block(units: seq<Unit>, images: seq<string>, cursor: nat, k: nat): seq<Line>
    requires cursor <= |images| && k < |units|
  {
    WantedBeforeStep(units, k);
    units[k].text
      + ImageLines(images[Position(units, images, cursor, k)..Position(units, images, cursor, k + 1)])
  }

  /** Every unit followed by the images it receives. */
  function Blocks(units: seq<Unit>, images: seq<string>, cursor: nat): (blocks: seq<seq<Line>>)
    requires cursor <= |images|
    ensures |blocks| == |units|
    ensures forall k :: 0 <= k < |units| ==> blocks[k] == Block(units, images, cursor, k)
  {
    seq(|units|, k requires 0 <= k < |units| => Block(units, images, cursor, k))
  }

  /** The composer's output without the cursor: unit `k` receives the images from
      position `Position(k)` up to `Position(k + 1)`, and the images from
      `Position(|units|)` on follow the last unit. */
  lemma {:induction false} Placement(units: seq<Unit>, images: seq<string>, cursor: nat)
    requires cursor <= |images|
    ensures Compose(units, images, cursor)
      == Concat(Blocks(units, images, cursor)) + ImageLines(images[Position(units, images, cursor, |units|)..])
    decreases |units|
  {
    if |units| == 0 {
      assert Position(units, images, cursor, 0) == cursor;
    } else {
      Placement(units[1..], images, cursor + Min(units[0].wants, |images| - cursor));
      PlacementStep(units, images, cursor);
    }
  }

  /** The inductive step of `Placement`: the first unit's block in front of the
      tail's placement. */
  lemma PlacementStep(units: seq<Unit>, images: seq<string>, cursor: nat)
    requires cursor <= |images| && 0 < |units|
    requires
      var next := cursor + Min(units[0].wants, |images| - cursor);
      Compose(units[1..], images, next)
        == Concat(Blocks(units[1..], images, next)) + ImageLines(images[Position(units[1..], images, next, |units| - 1)..])
    ensures Compose(units, images, cursor)
      == Concat(Blocks(units, images, cursor)) + ImageLines(images[Position(units, images, cursor, |units|)..])
  {
    var next := cursor + Min(units[0].wants, |images| - cursor);
    var tail := units[1..];
    var first := Block(units, images, cursor, 0);
    var later := Concat(Blocks(tail, images, next));
    var leftover := ImageLines(images[Position(units, images, cursor, |units|)..]);
    PositionOfTail(units, images, cursor, |tail|);
    assert Compose(tail, images, next) == later + leftover;
    FirstBlock(units, images, cursor);
    assert Compose(units, images, cursor) == first + Compose(tail, images, next);
    BlocksOfTail(units, images, cursor);
    ConcatCons(first, Blocks(tail, images, next));
    assert Concat(Blocks(units, images, cursor)) == first + later;
    Regroup(first, later, leftover);
  }

  lemma Regroup(a: seq<Line>, b: seq<Line>, c: seq<Line>)
    ensures a + (b + c) == a + b + c
  {
  }

  lemma ConcatCons(b: seq<Line>, bs: seq<seq<Line>>)
    ensures Concat([b] + bs) == b + Concat(bs)
  {
    assert ([b] + bs)[1..] == bs;
  }

  lemma BlocksOfTail(units: seq<Unit>, images: seq<string>, cursor: nat)
    requires cursor <= |images| && 0 < |units|
    ensures Blocks(units, images, cursor)
      == [Block(units, images, cursor, 0)]
         + Blocks(units[1..], images, cursor + Min(units[0].wants, |images| - cursor))
  {
    var next := cursor + Min(units[0].wants, |images| - cursor);
    var whole := Blocks(units, images, cursor);
    var tail := Blocks(units[1..], images, next);
    forall k | 0 <= k < |tail|
      ensures whole[k + 1] == tail[k]
    {
      BlockOfTail(units, images, cursor, k);
    }
    ConsByIndex(whole, Block(units, images, cursor, 0), tail);
  }

  /** A sequence is its first element followed by whatever agrees with the rest
      index by index. */
  lemma ConsByIndex<T>(whole: seq<T>, first: T, tail: seq<T>)
    requires |whole| == 1 + |tail| && whole[0] == first
    requires forall k :: 0 <= k < |tail| ==> whole[k + 1] == tail[k]
    ensures whole == [first] + tail
  {
  }

  lemma PositionOfTail(units: seq<Unit>, images: seq<string>, cursor: nat, k: nat)
    requires cursor <= |images| && k < |units|
    ensures Position(units[1..], images, cursor + Min(units[0].wants, |images| - cursor), k)
      == Position(units, images, cursor, k + 1)
  {
  }

  /** Block `k` of a composition from the start: unit `k`'s text, then the
      images between the positions around it. */
  lemma BlockAt(units: seq<Unit>, images: seq<string>, k: nat)
    requires k < |units|
    ensures Position(units, images, 0, k) <= Position(units, images, 0, k + 1)
    ensures Blocks(units, images, 0)[k]
      == units[k].text + ImageLines(images[Position(units, images, 0, k)..Position(units, images, 0, k + 1)])
  {
    WantedBeforeStep(units, k);
  }

  lemma FirstBlock(units: seq<Unit>, images: seq<string>, cursor: nat)
    requires cursor <= |images| && 0 < |units|
    ensures Block(units, images, cursor, 0)
      == units[0].text + ImageLines(images[cursor..cursor + Min(units[0].wants, |images| - cursor)])
  {
    assert Position(units, images, cursor, 0) == cursor;
    assert Position(units, images, cursor, 1) == cursor + Min(units[0].wants, |images| - cursor);
  }

  lemma BlockOfTail(units: seq<Unit>, images: seq<string>, cursor: nat, k: nat)
    requires cursor <= |images| && k + 1 < |units|
    ensures Block(units, images, cursor, k + 1)
      == Block(units[1..], images, cursor + Min(units[0].wants, |images| - cursor), k)
  {
    PositionOfTail(units, images, cursor, k);
    PositionOfTail(units, images, cursor, k + 1);
  }

  /** Unit `k` receives `min(wants, remaining)` images, where `remaining` counts
      the images not placed before it. */
  lemma ShareOfUnit(units: seq<Unit>, images: seq<string>, cursor: nat, k: nat)
    requires cursor <= |images| && k < |units|
    ensures Position(units, images, cursor, k) <= Position(units, images, cursor, k + 1)
    ensures Position(units, images, cursor, k + 1) - Position(units, images, cursor, k)
      == Min(units[k].wants, |images| - Position(units, images, cursor, k))
  {
    WantedBeforeStep(units, k);
  }

  lemma {:induction false} WantedBeforeStep(units: seq<Unit>, k: nat)
    requires k < |units|
    ensures WantedBefore(units, k + 1) == WantedBefore(units, k) + units[k].wants
    decreases k
  {
    if k > 0 {
      WantedBeforeStep(units[1..], k - 1);
    }
  }

  // ---------------------------------------------------------------------------
  // From lines to Markdown text

  /** How a line is written: text as it is, a placeholder preceded by `lead`
      (empty or a newline, depending on the composer) and followed by a newline. */
  function RenderLine(line: Line, lead: string): string {
    match line
    case TextLine(s) => s
    case ImageLine(path) => lead + Placeholder(path) + "\n"
  }

  function RenderLines(lines: seq<Line>, lead: string): (r: seq<string>)
    ensures |r| == |lines|
    decreases |lines|
  {
    if |lines| == 0 then [] else [RenderLine(lines[0], lead)] + RenderLines(lines[1..], lead)
  }

  /** `sep.join(markdown_lines)`. */
  function MarkdownText(lines: seq<Line>, lead: string, sep: string): string {
    Join(RenderLines(lines, lead), sep)
  }

  /** Document text that cannot be mistaken for placeholders, and image paths the
      substitution pattern captures whole. */
  ghost predicate Parsable(lines: seq<Line>) {
    forall k :: 0 <= k < |lines| ==>
      match lines[k]
      case TextLine(s) => Clean(s)
      case ImageLine(path) => ValidPath(path)
  }

  predicate AllNewlines(s: string) {
    forall i :: 0 <= i < |s| ==> s[i] == '\n'
  }

  lemma BodiesAfterNewlines(nl: string, rest: string)
    requires AllNewlines(nl)
    ensures Bodies(Parse(PlaceholderPattern, nl + rest)) == Bodies(Parse(PlaceholderPattern, rest))
  {
    OpenHasNoNewline();
    ParseWithoutOpenChar(PlaceholderPattern, nl, rest);
    BodiesAppend(Lits(nl), Parse(PlaceholderPattern, rest));
    BodiesOfLits(nl);
  }

  lemma BodiesOfTextThen(s: string, rest: string)
    requires Clean(s)
    requires |rest| == 0 || rest[0] == '\n'
    ensures Bodies(Parse(PlaceholderPattern, s + rest)) == Bodies(Parse(PlaceholderPattern, rest))
  {
    NoMatchInClean(s, rest);
    ParseLiteralPrefix(PlaceholderPattern, s, rest);
    BodiesAppend(Lits(s), Parse(PlaceholderPattern, rest));
    BodiesOfLits(s);
  }

  /** One rendered line followed by text that starts with a newline. */
  lemma BodiesOfLineThen(line: Line, lead: string, rest: string)
    requires AllNewlines(lead)
    requires Parsable([line])
    requires |rest| == 0 || rest[0] == '\n'
    ensures Bodies(Parse(PlaceholderPattern, RenderLine(line, lead) + rest))
      == Images([line]) + Bodies(Parse(PlaceholderPattern, rest))
  {
    assert [line][0] == line;
    ImagesOfOne(line);
    match line
    case TextLine(s) =>
      BodiesOfTextThen(s, rest);
    case ImageLine(path) =>
      BodiesOfImageThen(path, lead, rest);
  }

  lemma ImagesOfOne(line: Line)
    ensures Images([line]) == if line.ImageLine? then [line.path] else []
  {
    assert [line][1..] == [];
  }

  lemma BodiesOfImageThen(path: string, lead: string, rest: string)
    requires AllNewlines(lead)
    requires ValidPath(path)
    ensures Bodies(Parse(PlaceholderPattern, lead + Placeholder(path) + "\n" + rest))
      == [path] + Bodies(Parse(PlaceholderPattern, rest))
  {
    var after := "\n" + rest;
    assert lead + Placeholder(path) + "\n" + rest == lead + (Placeholder(path) + after);
    BodiesAfterNewlines(lead, Placeholder(path) + after);
    BodiesOfPlaceholderThen(path, after);
    BodiesAfterNewlines("\n", rest);
  }

  /** The composed Markdown, scanned by the substitution pattern, yields exactly
      the placeholder lines' paths, in order: one match per placed image. */
  lemma {:induction false} PlaceholdersOfMarkdown(lines: seq<Line>, lead: string, sep: string)
    requires AllNewlines(lead)
    requires |sep| > 0 && AllNewlines(sep)
    requires Parsable(lines)
    ensures Bodies(Parse(PlaceholderPattern, MarkdownText(lines, lead, sep))) == Images(lines)
    decreases |lines|
  {
    if |lines| == 1 {
      assert MarkdownText(lines, lead, sep) == RenderLine(lines[0], lead) + "";
      BodiesOfLineThen(lines[0], lead, "");
    } else if |lines| > 1 {
      var tail := lines[1..];
      var rest := sep + MarkdownText(tail, lead, sep);
      ParsableParts(lines);
      MarkdownCons(lines, lead, sep);
      BodiesOfLineThen(lines[0], lead, rest);
      BodiesAfterNewlines(sep, MarkdownText(tail, lead, sep));
      PlaceholdersOfMarkdown(tail, lead, sep);
      ImagesAppend([lines[0]], tail);
      assert [lines[0]] + tail == lines;
    }
  }

  lemma ParsableParts(lines: seq<Line>)
    requires Parsable(lines) && |lines| > 0
    ensures Parsable([lines[0]]) && Parsable(lines[1..])
  {
  }

  lemma MarkdownCons(lines: seq<Line>, lead: string, sep: string)
    requires |lines| > 1
    ensures MarkdownText(lines, lead, sep)
      == RenderLine(lines[0], lead) + (sep + MarkdownText(lines[1..], lead, sep))
  {
    JoinCons(RenderLine(lines[0], lead), RenderLines(lines[1..], lead), sep);
  }


  /** Every text line of every unit is clean text. */
  ghost predicate CleanUnits(units: seq<Unit>) {
    forall k :: 0 <= k < |units| ==> TextOnly(units[k].text) && Parsable(units[k].text)
  }


  lemma ParsableAppend(a: seq<Line>, b: seq<Line>)
    requires Parsable(a) && Parsable(b)
    ensures Parsable(a + b)
  {
    forall k | 0 <= k < |a + b|
      ensures match (a + b)[k]
        case TextLine(s) => Clean(s)
        case ImageLine(path) => ValidPath(path)
    {
      if k < |a| {
        assert (a + b)[k] == a[k];
      } else {
        assert (a + b)[k] == b[k - |a|];
      }
    }
  }

  lemma {:induction false} ParsableImageLines(paths: seq<string>)
    requires ValidPaths(paths)
    ensures Parsable(ImageLines(paths))
    decreases |paths|
  {
    if |paths| > 0 {
      ParsableImageLines(paths[1..]);
      ParsableAppend([ImageLine(paths[0])], ImageLines(paths[1..]));
    }
  }

  lemma {:induction false} ComposedParsable(units: seq<Unit>, images: seq<string>, cursor: nat)
    requires cursor <= |images|
    requires CleanUnits(units) && ValidPaths(images)
    ensures Parsable(Compose(units, images, cursor))
    decreases |units|
  {
    if |units| == 0 {
      ParsableImageLines(images[cursor..]);
    } else {
      var next := cursor + Min(units[0].wants, |images| - cursor);
      ComposedParsable(units[1..], images, next);
      ParsableImageLines(images[cursor..next]);
      ParsableAppend(units[0].text, ImageLines(images[cursor..next]));
      ParsableAppend(units[0].text + ImageLines(images[cursor..next]), Compose(units[1..], images, next));
    }
  }

  /** Composition followed by the substitution scan: the scan finds exactly the
      image paths handed to the composer, each once and in order, whenever the
      document text holds no placeholder syntax and no path holds `)`. */
  lemma ComposedPlaceholders(units: seq<Unit>, images: seq<string>, lead: string, sep: string)
    requires AllNewlines(lead)
    requires |sep| > 0 && AllNewlines(sep)
    requires CleanUnits(units) && ValidPaths(images)
    ensures Bodies(Parse(PlaceholderPattern, MarkdownText(Compose(units, images, 0), lead, sep))) == images
  {
    assert UnitsTextOnly(units);
    ComposedParsable(units, images, 0);
    PlaceholdersOfMarkdown(Compose(units, images, 0), lead, sep);
  }
}
