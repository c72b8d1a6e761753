/** `convert_docx_to_markdown_with_placeholders`: paragraphs become Markdown
    lines (headings get `#` marks), a placeholder follows each paragraph the
    document XML marks as holding a picture, unused images go at the end, and
    the lines are joined with newlines. */
module Docx {
  import opened Wrappers
  import opened Text
  import opened Scan
  import opened Substitution
  import opened Composer

  /** A paragraph as python-docx reports it: its text and its style name. */
  datatype Paragraph = Paragraph(text: string, style: string)

  const ErrorPrefix := "转换DOCX时出错: "

  /** The indices of the XML paragraphs (`w:p`) in which a drawing, a blip or a
      picture element was found. */
  function ImagePositions(hasImage: seq<bool>): (positions: set<int>)
    ensures forall k :: k in positions <==> 0 <= k < |hasImage| && hasImage[k]
  {
    set k | 0 <= k < |hasImage| && hasImage[k]
  }

  /** The text `int()` is applied to for a heading style. */
  function LevelText(style: string): string {
    ReplaceAll(style, "Heading ", "")
  }

  predicate IsHeading(p: Paragraph) {
    StartsWith(p.style, "Heading")
  }

  /** The message of the exception `'#' * int(level)` raises, if any: `int()`
      rejects text that is no literal and literals of too many digits, and the
      repetition rejects a count outside the range of `Py_ssize_t`. */
  function LevelError(level: string): (e: Option<string>)
    ensures e.None? <==> ParseInt(level).Int? && FitsIndex(ParseInt(level).value)
  {
    match ParseInt(level)
    case NotALiteral => Some(InvalidLiteral(level))
    case TooManyDigits(digits) => Some(DigitLimitMessage(digits))
    case Int(n) => if FitsIndex(n) then None else Some(IndexOverflow)
  }

  /** A non-blank heading paragraph whose level cannot be turned into hashes:
      converting it raises. */
  predicate BadHeading(p: Paragraph) {
    !IsBlank(p.text) && IsHeading(p) && LevelError(LevelText(p.style)).Some?
  }

  /** The Markdown line of one paragraph: nothing for a blank paragraph, `level`
      hashes, a space and the stripped text for a heading, the stripped text for
      anything else; every line ends in a newline. A heading level that cannot
      be turned into hashes is the error, carrying the exception's message. */
  function ParagraphLine(p: Paragraph): (r: Result<Option<string>, string>)
    ensures r == Success(None) <==> IsBlank(p.text)
    ensures r.Failure? <==> BadHeading(p)
    ensures r.Failure? ==> Some(r.error) == LevelError(LevelText(p.style))
    ensures r.Success? && r.value.Some? && !IsHeading(p) ==> r.value.value == Strip(p.text) + "\n"
  {
    var text := Strip(p.text);
    if text == "" then Success(None)
    else if StartsWith(p.style, "Heading") then
      match LevelError(LevelText(p.style))
      case Some(message) => Failure(message)
      case None =>
        Success(Some(Repeat('#', ParseInt(LevelText(p.style)).value) + " " + text + "\n"))
    else Success(Some(text + "\n"))
  }

  /** A paragraph in a `Heading n` style, `n` within `sys.maxsize`, becomes `n`
      hashes, a space and its text. */
  lemma HeadingLine(text: string, n: nat)
    requires !IsBlank(text) && n <= MaxSize
    ensures ParagraphLine(Paragraph(text, "Heading " + NatToString(n)))
      == Success(Some(Repeat('#', n) + " " + Strip(text) + "\n"))
  {
    var p := Paragraph(text, "Heading " + NatToString(n));
    HeadingStyle(NatToString(n));
    IndexDigits(n);
    ParseIntOfNatToString(n);
    assert ParseInt(LevelText(p.style)) == Int(n);
  }

  /** A level above `sys.maxsize` is read by `int()` but cannot count hashes:
      the paragraph fails with the `OverflowError` message. */
  lemma HeadingTooLarge(text: string, n: nat)
    requires !IsBlank(text) && MaxSize < n && |NatToString(n)| <= IntMaxStrDigits
    ensures ParagraphLine(Paragraph(text, "Heading " + NatToString(n))) == Failure(IndexOverflow)
  {
    var p := Paragraph(text, "Heading " + NatToString(n));
    HeadingStyle(NatToString(n));
    ParseIntOfNatToString(n);
    assert ParseInt(LevelText(p.style)) == Int(n);
  }

  /** A level of more digits than `int()` accepts fails with the digit-limit
      message. */
  lemma HeadingTooLong(text: string, n: nat)
    requires !IsBlank(text) && |NatToString(n)| > IntMaxStrDigits
    ensures ParagraphLine(Paragraph(text, "Heading " + NatToString(n)))
      == Failure(DigitLimitMessage(|NatToString(n)|))
  {
    var p := Paragraph(text, "Heading " + NatToString(n));
    HeadingStyle(NatToString(n));
    ParseIntOfLongNumber(n);
    assert ParseInt(LevelText(p.style)) == TooManyDigits(|NatToString(n)|);
  }

  /** `Heading ` followed by digits is a heading style whose level text is the digits. */
  lemma HeadingStyle(digits: string)
    requires forall k :: 0 <= k < |digits| ==> IsDigit(digits[k])
    ensures StartsWith("Heading " + digits, "Heading")
    ensures LevelText("Heading " + digits) == digits
  {
    ReplaceAtStart("Heading ", digits, "");
    NoHeadingInDigits(digits);
  }

  lemma NoHeadingInDigits(digits: string)
    requires forall k :: 0 <= k < |digits| ==> IsDigit(digits[k])
    ensures !Contains(digits, "Heading ")
  {
    forall i | 0 <= i <= |digits| - |"Heading "|
      ensures !OccursAt(digits, "Heading ", i)
    {
      assert digits[i..i + |"Heading "|][0] == digits[i];
    }
  }

  /** A heading style without digits and without `Heading ` in it, such as
      `Heading` itself, is its own level; `int()` rejects it, quoting it in the
      message. */
  lemma DigitlessHeadingFails(text: string, style: string)
    requires !IsBlank(text) && StartsWith(style, "Heading") && |style| <= 198
    requires !Contains(style, "Heading ")
    requires forall k :: 0 <= k < |style| ==>
      !IsDigit(style[k]) && style[k] != '\'' && style[k] != '\\' && IsPrintable(style[k])
    ensures ParagraphLine(Paragraph(text, style))
      == Failure(InvalidLiteralPrefix + ("'" + style + "'"))
  {
    DigitlessLevelFails(style);
    InvalidLiteralPlain(style);
  }

  /** `repr` escapes the level in the message: in a style `Heading<a><tab><b>`
      the tab is written as backslash and `t`. */
  lemma TabbedLevelIsEscaped(text: string, a: string, b: string)
    requires !IsBlank(text) && StartsWith(a, "Heading") && |a| + |b| <= 196
    requires !Contains(a + "\t" + b, "Heading ")
    requires forall k :: 0 <= k < |a| ==>
      !IsDigit(a[k]) && a[k] != '\'' && a[k] != '\\' && IsPrintable(a[k])
    requires forall k :: 0 <= k < |b| ==>
      !IsDigit(b[k]) && b[k] != '\'' && b[k] != '\\' && IsPrintable(b[k])
    ensures ParagraphLine(Paragraph(text, a + "\t" + b))
      == Failure(InvalidLiteralPrefix + ("'" + a + "\\t" + b + "'"))
  {
    var style := a + "\t" + b;
    assert style[..|"Heading"|] == a[..|"Heading"|];
    forall k | 0 <= k < |style|
      ensures !IsDigit(style[k])
    {
      if k < |a| { assert style[k] == a[k]; } else if k > |a| { assert style[k] == b[k - |a| - 1]; }
    }
    DigitlessLevelFails(style);
    ReprOfTab(a, b);
    ShortReprIsKept(style);
  }

  /** A style without `Heading ` in it and without digits is its own level, and
      `int()` rejects it. */
  lemma DigitlessLevelFails(style: string)
    requires !Contains(style, "Heading ")
    requires forall k :: 0 <= k < |style| ==> !IsDigit(style[k])
    ensures LevelError(LevelText(style)) == Some(InvalidLiteral(style))
  {
  }

  lemma ShortReprIsKept(s: string)
    requires |Repr(s)| <= 200
    ensures Truncate(Repr(s), 200) == Repr(s)
  {
  }

  /** A level of printable characters without quote or backslash is quoted as
      it is in `int()`'s message. */
  lemma InvalidLiteralPlain(s: string)
    requires |s| <= 198
    requires forall k :: 0 <= k < |s| ==> s[k] != '\'' && s[k] != '\\' && IsPrintable(s[k])
    ensures InvalidLiteral(s) == InvalidLiteralPrefix + ("'" + s + "'")
  {
    ReprPlain(s);
  }

  /** Paragraph number `index` as the composer sees it: its line, if any, and one
      image wanted when the XML marks a picture at that index. */
  function ParagraphUnit(p: Paragraph, index: int, positions: set<int>): (r: Result<Unit, string>)
    ensures r.Success? ==> TextOnly(r.value.text) && |r.value.text| <= 1
    ensures r.Success? ==> r.value.wants == if index in positions then 1 else 0
  {
    var line :- ParagraphLine(p);
    Success(Unit(if line.Some? then [TextLine(line.value)] else [], if index in positions then 1 else 0))
  }

  /** The paragraphs from index `from` on, one unit each; the first bad heading
      aborts the conversion. */
  function Units(paras: seq<Paragraph>, positions: set<int>, from: nat): (r: Result<seq<Unit>, string>)
    ensures r.Success? ==> |r.value| == |paras|
    ensures r.Success? ==> forall k :: 0 <= k < |paras| ==>
      ParagraphUnit(paras[k], from + k, positions) == Success(r.value[k])
    decreases |paras|
  {
    if |paras| == 0 then Success([])
    else
      var unit :- ParagraphUnit(paras[0], from, positions);
      var rest :- Units(paras[1..], positions, from + 1);
      assert forall k :: 0 < k < |paras| ==> paras[k] == paras[1..][k - 1] && from + k == from + 1 + (k - 1);
      Success([unit] + rest)
  }

  lemma UnitsShape(paras: seq<Paragraph>, positions: set<int>, from: nat)
    requires Units(paras, positions, from).Success?
    ensures UnitsTextOnly(Units(paras, positions, from).value)
    ensures forall k :: 0 <= k < |paras| ==>
      Units(paras, positions, from).value[k].wants == if from + k in positions then 1 else 0
  {
  }

  lemma UnitsTail(paras: seq<Paragraph>, positions: set<int>, from: nat)
    requires |paras| > 0 && Units(paras, positions, from).Success?
    ensures Units(paras[1..], positions, from + 1).Success?
    ensures Units(paras[1..], positions, from + 1).value == Units(paras, positions, from).value[1..]
  {
  }

  /** The paragraphs convert exactly when none of them is a bad heading. */
  lemma {:induction false} UnitsSucceed(paras: seq<Paragraph>, positions: set<int>, from: nat)
    ensures Units(paras, positions, from).Success? <==> forall k :: 0 <= k < |paras| ==> !BadHeading(paras[k])
    decreases |paras|
  {
    if |paras| > 0 {
      UnitsSucceed(paras[1..], positions, from + 1);
      assert forall k :: 0 < k < |paras| ==> paras[k] == paras[1..][k - 1];
      assert ParagraphUnit(paras[0], from, positions).Success? <==> !BadHeading(paras[0]);
    }
  }

  /** The error is the message of the first bad heading. */
  lemma {:induction false} UnitsFailAtFirstBad(paras: seq<Paragraph>, positions: set<int>, from: nat, k: nat)
    requires k < |paras| && BadHeading(paras[k])
    requires forall j :: 0 <= j < k ==> !BadHeading(paras[j])
    ensures Units(paras, positions, from) == Failure(LevelError(LevelText(paras[k].style)).value)
  {
    // The steps below are about how Units passes on a failure; none needs
    // a definition, and hiding them all keeps the solver from unfolding them.
    hide *;
    BadParagraphFails(paras[k], from + k, positions);
    GoodParagraphsConvert(paras, positions, from, 0, k);
    UnitsFailFrom(paras, positions, from, 0, k);
    assert paras[0..] == paras;
  }

  lemma BadParagraphFails(p: Paragraph, index: int, positions: set<int>)
    requires BadHeading(p)
    ensures LevelError(LevelText(p.style)).Some?
    ensures ParagraphUnit(p, index, positions) == Failure(LevelError(LevelText(p.style)).value)
  {
  }

  /** Paragraphs `i` up to `k` all convert. Stated recursively so that each
      step of a proof unfolds one paragraph. */
  predicate ConvertsBetween(paras: seq<Paragraph>, positions: set<int>, from: nat, i: nat, k: nat)
    requires k <= |paras|
    decreases k - i
  {
    i >= k || (ParagraphUnit(paras[i], from + i, positions).Success? && ConvertsBetween(paras, positions, from, i + 1, k))
  }

  lemma {:induction false} GoodParagraphsConvert(paras: seq<Paragraph>, positions: set<int>, from: nat, i: nat, k: nat)
    requires k <= |paras|
    requires forall j :: i <= j < k ==> !BadHeading(paras[j])
    ensures ConvertsBetween(paras, positions, from, i, k)
    decreases k - i
  {
    hide ParagraphUnit, BadHeading;
    if i < k {
      GoodParagraphConverts(paras[i], from + i, positions);
      GoodParagraphsConvert(paras, positions, from, i + 1, k);
    }
  }

  lemma GoodParagraphConverts(p: Paragraph, index: int, positions: set<int>)
    requires !BadHeading(p)
    ensures ParagraphUnit(p, index, positions).Success?
  {
  }

  /** The error of the units from paragraph `i` on is the one of paragraph
      `k` when those before it convert. */
  lemma {:induction false} UnitsFailFrom(paras: seq<Paragraph>, positions: set<int>, from: nat, i: nat, k: nat)
    requires i <= k < |paras| && ParagraphUnit(paras[k], from + k, positions).Failure?
    requires ConvertsBetween(paras, positions, from, i, k)
    ensures Units(paras[i..], positions, from + i) == Failure(ParagraphUnit(paras[k], from + k, positions).error)
    decreases k - i
  {
    // Only how Units threads the failure matters here, not how a paragraph
    // converts; hiding the latter keeps the solver from unfolding it.
    hide ParagraphUnit;
    var rest := paras[i..];
    assert rest[0] == paras[i];
    if i == k {
      UnitsFailAtHead(rest, positions, from + i);
    } else {
      var j: nat := i + 1;
      UnitsFailFrom(paras, positions, from, j, k);
      assert rest[1..] == paras[j..];
      UnitsFailInTail(rest, positions, from + i, from + j);
    }
  }

  lemma UnitsFailAtHead(paras: seq<Paragraph>, positions: set<int>, from: nat)
    requires |paras| > 0 && ParagraphUnit(paras[0], from, positions).Failure?
    ensures Units(paras, positions, from) == Failure(ParagraphUnit(paras[0], from, positions).error)
  {
  }

  lemma UnitsFailInTail(paras: seq<Paragraph>, positions: set<int>, from: nat, next: nat)
    requires next == from + 1
    requires |paras| > 0 && ParagraphUnit(paras[0], from, positions).Success?
    requires Units(paras[1..], positions, next).Failure?
    ensures Units(paras, positions, from) == Units(paras[1..], positions, next)
  {
  }

  /** `markdown_lines` after the paragraph loop and the trailing images. */
  function Lines(paras: seq<Paragraph>, hasImage: seq<bool>, images: seq<string>): (r: Result<seq<Line>, string>)
    ensures r.Success? <==> forall k :: 0 <= k < |paras| ==> !BadHeading(paras[k])
    ensures r.Success? ==> Images(r.value) == images
  {
    UnitsSucceed(paras, ImagePositions(hasImage), 0);
    var units :- Units(paras, ImagePositions(hasImage), 0);
    UnitsShape(paras, ImagePositions(hasImage), 0);
    Success(Compose(units, images, 0))
  }

  /** The converter's result: the lines joined with newlines, or the error text. */
  function Convert(paras: seq<Paragraph>, hasImage: seq<bool>, images: seq<string>): (markdown: string)
    ensures (exists k :: 0 <= k < |paras| && BadHeading(paras[k])) ==> StartsWith(markdown, ErrorPrefix)
  {
    match Lines(paras, hasImage, images)
    case Success(lines) => MarkdownText(lines, "", "\n")
    case Failure(message) => ErrorPrefix + message
  }

  /** With a bad heading the whole result is the error text carrying the
      message of the first one. */
  lemma ConvertFailure(paras: seq<Paragraph>, hasImage: seq<bool>, images: seq<string>, k: nat)
    requires k < |paras| && BadHeading(paras[k])
    requires forall j :: 0 <= j < k ==> !BadHeading(paras[j])
    ensures Convert(paras, hasImage, images) == ErrorPrefix + LevelError(LevelText(paras[k].style)).value
  {
    UnitsFailAtFirstBad(paras, ImagePositions(hasImage), 0, k);
  }

  /** The number of indices in `from .. from + k` that are marked. */
  function Marked(positions: set<int>, from: nat, k: nat): nat
    decreases k
  {
    if k == 0 then 0 else (if from in positions then 1 else 0) + Marked(positions, from + 1, k - 1)
  }

  lemma WantedIsMarked(paras: seq<Paragraph>, positions: set<int>, from: nat, k: nat)
    requires Units(paras, positions, from).Success? && k <= |paras|
    ensures WantedBefore(Units(paras, positions, from).value, k) == Marked(positions, from, k)
  {
    var units := Units(paras, positions, from).value;
    forall j | 0 <= j < |units|
      ensures units[j].wants == if from + j in positions then 1 else 0
    {
      assert ParagraphUnit(paras[j], from + j, positions) == Success(units[j]);
    }
    WantedOfMarks(units, positions, from, k);
  }

  /** Units that each want one image exactly at the marked indices want, in
      all, as many images as there are marks. */
  lemma {:induction false} WantedOfMarks(units: seq<Unit>, positions: set<int>, from: nat, k: nat)
    requires k <= |units|
    requires forall j :: 0 <= j < |units| ==> units[j].wants == if from + j in positions then 1 else 0
    ensures WantedBefore(units, k) == Marked(positions, from, k)
    decreases k
  {
    if k > 0 {
      assert units[0].wants == if from + 0 in positions then 1 else 0;
      forall j | 0 <= j < |units[1..]|
        ensures units[1..][j].wants == if from + 1 + j in positions then 1 else 0
      {
        assert units[1..][j] == units[j + 1];
      }
      WantedOfMarks(units[1..], positions, from + 1, k - 1);
    }
  }

  /** Paragraph `k` is followed by a placeholder exactly when the XML marks it and
      fewer images than marked paragraphs before it were available; the image is
      the one whose index counts the marked paragraphs before `k`. */
  lemma ParagraphImage(paras: seq<Paragraph>, hasImage: seq<bool>, images: seq<string>, k: nat)
    requires Units(paras, ImagePositions(hasImage), 0).Success? && k < |paras|
    ensures
      var units := Units(paras, ImagePositions(hasImage), 0).value;
      var at := Min(Marked(ImagePositions(hasImage), 0, k), |images|);
      Block(units, images, 0, k)
        == units[k].text
           + if k < |hasImage| && hasImage[k] && at < |images| then [ImageLine(images[at])] else []
  {
    var positions := ImagePositions(hasImage);
    var units := Units(paras, positions, 0).value;
    WantedIsMarked(paras, positions, 0, k);
    ShareOfUnit(units, images, 0, k);
    assert units[k].wants == if k < |hasImage| && hasImage[k] then 1 else 0;
    OneOrNoImage(images, Position(units, images, 0, k), Position(units, images, 0, k + 1));
  }

  lemma OneOrNoImage(images: seq<string>, i: nat, j: nat)
    requires i <= j <= |images| && j - i <= 1
    ensures ImageLines(images[i..j]) == if i < j then [ImageLine(images[i])] else []
  {
    if i < j {
      assert images[i..j] == [images[i]];
      assert ImageLines([images[i]]) == [ImageLine(images[i])] + ImageLines([]);
    }
  }

  /** Headings and plain paragraphs give clean lines when the paragraph text is
      clean. */
  lemma ParagraphLineClean(p: Paragraph)
    requires Clean(p.text)
    requires ParagraphLine(p).Success? && ParagraphLine(p).value.Some?
    ensures Clean(ParagraphLine(p).value.value)
  {
    var text := Strip(p.text);
    CleanStrip(p.text);
    CleanWithNewline(text);
    if IsHeading(p) {
      var n := ParseInt(LevelText(p.style)).value;
      HeadingClean(n, text);
    }
  }

  lemma HeadingClean(n: int, text: string)
    requires Clean(text + "\n")
    ensures Clean(Repeat('#', n) + " " + text + "\n")
  {
    CleanAfterBangFree(Repeat('#', n) + " ", text + "\n");
    assert Repeat('#', n) + " " + text + "\n" == Repeat('#', n) + " " + (text + "\n");
  }

  lemma {:induction false} UnitsClean(paras: seq<Paragraph>, positions: set<int>, from: nat)
    requires Units(paras, positions, from).Success?
    requires forall k :: 0 <= k < |paras| ==> Clean(paras[k].text)
    ensures CleanUnits(Units(paras, positions, from).value)
    decreases |paras|
  {
    if |paras| > 0 {
      var units := Units(paras, positions, from).value;
      UnitsTail(paras, positions, from);
      UnitsClean(paras[1..], positions, from + 1);
      if ParagraphLine(paras[0]).value.Some? {
        ParagraphLineClean(paras[0]);
      }
      assert TextOnly(units[0].text) && Parsable(units[0].text);
    }
  }

  /** Scanning the converted document for placeholders finds the images in
      order, each once, when no paragraph holds placeholder syntax, no path
      holds `)` and no heading is bad. */
  lemma ConvertPlaceholders(paras: seq<Paragraph>, hasImage: seq<bool>, images: seq<string>)
    requires forall k :: 0 <= k < |paras| ==> Clean(paras[k].text) && !BadHeading(paras[k])
    requires ValidPaths(images)
    ensures Bodies(Parse(PlaceholderPattern, Convert(paras, hasImage, images))) == images
  {
    var positions := ImagePositions(hasImage);
    UnitsSucceed(paras, positions, 0);
    var units := Units(paras, positions, 0).value;
    UnitsClean(paras, positions, 0);
    ComposedPlaceholders(units, images, "", "\n");
  }
}
