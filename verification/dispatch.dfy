/** Choosing what to do with a linked file from its name: `os.path.splitext`,
    the `FILE_READERS` table and `get_content_from_file`, the two dispatchers
    `extract_images_from_document` and `convert_to_markdown_with_placeholders`,
    the image-file filters of the three extractors, and `format_as_markdown`. */
module Dispatch {
  import opened Wrappers
  import opened Text
  import opened Scan
  import opened Substitution
  import Docx
  import Pdf
  import Pptx
  import XMind

  // ---------------------------------------------------------------------------
  // `os.path.splitext` (Windows flavour: both `/` and `\` separate components)

  predicate IsSep(c: char) {
    c == '/' || c == '\\'
  }

  /** Index of the last separator of `p`, or -1 when there is none. */
  function LastSep(p: string): (i: int)
    ensures -1 <= i < |p|
    ensures 0 <= i ==> IsSep(p[i])
    ensures forall k :: i < k < |p| ==> !IsSep(p[k])
    decreases |p|
  {
    if |p| == 0 then -1
    else if IsSep(p[|p| - 1]) then |p| - 1
    else LastSep(p[..|p| - 1])
  }

  /** Index of the last dot of `p`, or -1 when there is none. */
  function LastDot(p: string): (i: int)
    ensures -1 <= i < |p|
    ensures 0 <= i ==> p[i] == '.'
    ensures forall k :: i < k < |p| ==> p[k] != '.'
    decreases |p|
  {
    if |p| == 0 then -1
    else if p[|p| - 1] == '.' then |p| - 1
    else LastDot(p[..|p| - 1])
  }

  /** Where the extension starts: at the last dot when it lies in the last
      component and that component has a character other than a dot before
      it (leading dots do not start an extension); otherwise at the end. */
  function ExtensionStart(p: string): (i: nat)
    ensures i <= |p|
  {
    var sep := LastSep(p);
    var dot := LastDot(p);
    if sep < dot && exists j :: sep < j < dot && p[j] != '.' then dot else |p|
  }

  /** `os.path.splitext(p)`: the root and the extension, which together give
      back `p`; a non-empty extension is one dot followed by characters that
      are neither dots nor separators. */
  function SplitExt(p: string): (parts: (string, string))
    ensures parts.0 + parts.1 == p
    ensures parts.1 == [] || parts.1[0] == '.'
    ensures forall k :: 0 < k < |parts.1| ==> parts.1[k] != '.' && !IsSep(parts.1[k])
  {
    var i := ExtensionStart(p);
    assert p[..i] + p[i..] == p;
    (p[..i], p[i..])
  }

  function Extension(p: string): string {
    SplitExt(p).1
  }

  /** A name in a directory, made of a stem with some character other than a
      dot, a dot and a suffix without dots or separators, has that dot and
      suffix as its extension. */
  lemma ExtensionOfName(dir: string, stem: string, suffix: string)
    requires dir == [] || IsSep(dir[|dir| - 1])
    requires forall k :: 0 <= k < |stem| ==> !IsSep(stem[k])
    requires exists k :: 0 <= k < |stem| && stem[k] != '.'
    requires forall k :: 0 <= k < |suffix| ==> suffix[k] != '.' && !IsSep(suffix[k])
    ensures SplitExt(dir + stem + "." + suffix) == (dir + stem, "." + suffix)
  {
    var p := dir + stem + "." + suffix;
    var dot := |dir| + |stem|;
    assert p[dot] == '.';
    assert forall k :: dot < k < |p| ==> p[k] == suffix[k - dot - 1];
    assert LastDot(p) == dot;
    assert forall k :: |dir| <= k < |p| ==> !IsSep(p[k]) by {
      forall k | |dir| <= k < |p|
        ensures !IsSep(p[k])
      {
        if k < dot {
          assert p[k] == stem[k - |dir|];
        } else if dot < k {
          assert p[k] == suffix[k - dot - 1];
        }
      }
    }
    assert LastSep(p) < |dir|;
    var j :| 0 <= j < |stem| && stem[j] != '.';
    assert p[|dir| + j] == stem[j];
    assert ExtensionStart(p) == dot;
    assert p[..dot] == dir + stem;
    assert p[dot..] == "." + suffix;
  }

  /** A name whose only dot, if any, is its first character (`.bashrc`,
      `README`) has no extension. */
  lemma NameWithoutExtension(dir: string, name: string)
    requires dir == [] || IsSep(dir[|dir| - 1])
    requires |name| > 0 && !IsSep(name[0])
    requires forall k :: 0 < k < |name| ==> name[k] != '.' && !IsSep(name[k])
    ensures Extension(dir + name) == []
  {
    var p := dir + name;
    assert forall k :: |dir| < k < |p| ==> p[k] == name[k - |dir|];
    assert p[|dir|] == name[0];
    assert forall k :: |dir| <= k < |p| ==> !IsSep(p[k]);
    assert 0 < |dir| ==> IsSep(p[|dir| - 1]);
    assert LastDot(p) <= |dir|;
    assert LastSep(p) == |dir| - 1;
  }

  /** Lowering the path does not move its separators or dots, so it lowers the
      extension and nothing else: the dispatchers, which split the lowered
      path, and `get_content_from_file`, which lowers the split extension,
      look at the same text. */
  lemma {:induction false} LowerSplitExt(p: string)
    ensures SplitExt(Lower(p)) == (Lower(SplitExt(p).0), Lower(SplitExt(p).1))
  {
    var q := Lower(p);
    LastSepLower(p);
    LastDotLower(p);
    var i := ExtensionStart(p);
    assert ExtensionStart(q) == i by {
      var sep := LastSep(p);
      var dot := LastDot(p);
      assert forall j :: 0 <= j < |p| ==> (q[j] != '.' <==> p[j] != '.');
      if sep < dot && exists j :: sep < j < dot && p[j] != '.' {
        var j :| sep < j < dot && p[j] != '.';
        assert q[j] != '.';
      }
    }
    assert q[..i] == Lower(p[..i]);
    assert q[i..] == Lower(p[i..]);
  }

  lemma {:induction false} LastSepLower(p: string)
    ensures LastSep(Lower(p)) == LastSep(p)
    decreases |p|
  {
    if |p| > 0 {
      assert Lower(p)[..|p| - 1] == Lower(p[..|p| - 1]);
      LastSepLower(p[..|p| - 1]);
    }
  }

  lemma {:induction false} LastDotLower(p: string)
    ensures LastDot(Lower(p)) == LastDot(p)
    decreases |p|
  {
    if |p| > 0 {
      assert Lower(p)[..|p| - 1] == Lower(p[..|p| - 1]);
      LastDotLower(p[..|p| - 1]);
    }
  }

  lemma LowerTwice(s: string)
    ensures Lower(Lower(s)) == Lower(s)
  {
  }

  // ---------------------------------------------------------------------------
  // `FILE_READERS` and `get_content_from_file`

  /** The reading functions of the table: `read_txt_content`, ...,
      `read_xmind_content`. */
  datatype Reader = TxtReader | DocxReader | XlsxReader | PptxReader | PdfReader | XMindReader

  /** The table, keyed by lower-case extension. */
  const FileReaders: map<string, Reader> := map[
    ".txt" := TxtReader,
    ".docx" := DocxReader,
    ".xlsx" := XlsxReader,
    ".pptx" := PptxReader,
    ".pdf" := PdfReader,
    ".xmind" := XMindReader
  ]

  /** The extension each reader is registered under. */
  function Key(r: Reader): string {
    match r
    case TxtReader => ".txt"
    case DocxReader => ".docx"
    case XlsxReader => ".xlsx"
    case PptxReader => ".pptx"
    case PdfReader => ".pdf"
    case XMindReader => ".xmind"
  }

  /** `FILE_READERS.get(extension.lower())`. */
  function ReaderFor(extension: string): (r: Option<Reader>)
    ensures forall reader :: r == Some(reader) <==> Lower(extension) == Key(reader)
  {
    var key := Lower(extension);
    if key in FileReaders then Some(FileReaders[key]) else None
  }

  /** Every reader is in the table once, under its own key, and the table
      holds nothing else. */
  lemma FileReadersTable()
    ensures forall r :: Key(r) in FileReaders && FileReaders[Key(r)] == r
    ensures forall e :: e in FileReaders ==> Key(FileReaders[e]) == e
  {
  }

  function NotFoundMessage(path: string): string {
    "错误：链接的文件 '" + path + "' 不存在"
  }

  function UnsupportedMessage(path: string, extension: string): string {
    "错误：文件 '" + path + "' 的类型 (" + extension + ") 不受支持"
  }

  /** `get_content_from_file`. Whether the file exists and what each reader
      returns for it are inputs: the filesystem and the readers' parsing
      libraries are outside the model. */
  function GetContentFromFile(path: string, onDisk: bool, read: Reader -> string): (r: string)
    ensures !onDisk ==> r == NotFoundMessage(path)
    ensures forall reader :: onDisk && Lower(Extension(path)) == Key(reader) ==> r == read(reader)
    ensures onDisk && (forall reader :: Lower(Extension(path)) != Key(reader)) ==>
      r == UnsupportedMessage(path, Extension(path))
  {
    if !onDisk then NotFoundMessage(path)
    else
      match ReaderFor(Extension(path))
      case Some(reader) => read(reader)
      case None => UnsupportedMessage(path, Extension(path))
  }

  /** The reader chosen for a path does not depend on the case of its letters:
      `Report.DOCX` is read by the DOCX reader. */
  lemma ReaderIgnoresCase(path: string)
    ensures ReaderFor(Extension(Lower(path))) == ReaderFor(Extension(path))
  {
    LowerSplitExt(path);
    LowerTwice(Extension(path));
  }

  /** A file named only `.txt` (a dot, then no dot or separator) has no
      extension, so no reader takes it and the message names an empty type. */
  lemma HiddenFileUnsupported(name: string, read: Reader -> string)
    requires forall k :: 0 <= k < |name| ==> name[k] != '.' && !IsSep(name[k])
    ensures GetContentFromFile("." + name, true, read) == UnsupportedMessage("." + name, "")
  {
    NameWithoutExtension("", "." + name);
    assert "" + ("." + name) == "." + name;
    assert Lower([]) == [];
  }

  // ---------------------------------------------------------------------------
  // The two dispatchers

  /** The formats with an image-aware path, and the fallback. */
  datatype Route = DocxRoute | PdfRoute | PptxRoute | XMindRoute | ReaderRoute

  /** The route for a lower-case extension. */
  function RouteFor(key: string): Route {
    if key == ".docx" then DocxRoute
    else if key == ".pdf" then PdfRoute
    else if key == ".pptx" then PptxRoute
    else if key == ".xmind" then XMindRoute
    else ReaderRoute
  }

  /** The extensions, in lower case, of the formats with an image extractor. */
  const ImageFormats: set<string> := {".docx", ".pdf", ".pptx", ".xmind"}

  /** The routes with an extractor are those of the image formats, whether
      the path is lowered before or after it is split. */
  lemma RouteOfImageFormat(path: string)
    ensures RouteOf(path) == ReaderRoute <==> Lower(Extension(path)) !in ImageFormats
  {
    LowerSplitExt(path);
    assert Extension(Lower(path)) == Lower(Extension(path));
    RouteForImageFormat(Lower(Extension(path)));
  }

  lemma RouteForImageFormat(key: string)
    ensures RouteFor(key) == ReaderRoute <==> key !in ImageFormats
  {
  }

  /** Both dispatchers split the lowered path. */
  function RouteOf(path: string): Route {
    RouteFor(Extension(Lower(path)))
  }

  /** The table entry for the same format. */
  function RouteReader(route: Route): Option<Reader> {
    match route
    case DocxRoute => Some(DocxReader)
    case PdfRoute => Some(PdfReader)
    case PptxRoute => Some(PptxReader)
    case XMindRoute => Some(XMindReader)
    case ReaderRoute => None
  }

  /** The dispatchers and the reader table agree: a path takes an image-aware
      route exactly when the table reads it with that format's reader, and
      the fallback route is taken for text, spreadsheets and unknown types. */
  lemma RoutesAgreeWithReaders(path: string)
    ensures RouteOf(path) != ReaderRoute ==> ReaderFor(Extension(path)) == RouteReader(RouteOf(path))
    ensures RouteOf(path) == ReaderRoute <==>
      ReaderFor(Extension(path)) in {None, Some(TxtReader), Some(XlsxReader)}
  {
    LowerSplitExt(path);
    RouteForAgrees(Extension(path));
  }

  lemma RouteForAgrees(extension: string)
    ensures RouteFor(Lower(extension)) != ReaderRoute ==>
      ReaderFor(extension) == RouteReader(RouteFor(Lower(extension)))
    ensures RouteFor(Lower(extension)) == ReaderRoute <==>
      ReaderFor(extension) in {None, Some(TxtReader), Some(XlsxReader)}
  {
    var key := Lower(extension);
    var r := ReaderFor(extension);
    if r.Some? {
      assert key == Key(r.value);
    } else {
      assert key != Key(DocxReader) && key != Key(PdfReader);
      assert key != Key(PptxReader) && key != Key(XMindReader);
    }
  }

  /** `extract_images_from_document`: the format's extractor runs for the four
      image-aware formats (what it finds is an input), and nothing is found
      for any other file. */
  function ExtractImagesFromDocument(path: string, found: seq<string>): (images: seq<string>)
    ensures Lower(Extension(path)) in ImageFormats ==> images == found
    ensures Lower(Extension(path)) !in ImageFormats ==> images == []
  {
    RouteOfImageFormat(path);
    if RouteOf(path) == ReaderRoute then [] else found
  }

  /** What the parsing libraries read from the file, for each format. */
  datatype Document = Document(
    paragraphs: seq<Docx.Paragraph>,
    hasImage: seq<bool>,
    pages: seq<Pdf.Page>,
    slides: seq<Pptx.Slide>,
    mindMap: XMind.Content)

  /** `convert_to_markdown_with_placeholders`. Only the fallback route looks
      at the filesystem, and an XMind map with no images gives the reader's
      text unchanged. */
  function ConvertToMarkdown(path: string, images: seq<string>, doc: Document,
                             onDisk: bool, read: Reader -> string): (r: string)
    ensures RouteOf(path) == ReaderRoute ==> r == GetContentFromFile(path, onDisk, read)
    ensures RouteOf(path) == ReaderRoute && !onDisk ==> r == NotFoundMessage(path)
    ensures RouteOf(path) == ReaderRoute && onDisk && ReaderFor(Extension(path)).None? ==>
      r == UnsupportedMessage(path, Extension(path))
    ensures RouteOf(path) == XMindRoute && |images| == 0 ==> r == XMind.ReadContent(doc.mindMap)
  {
    match RouteOf(path)
    case DocxRoute => Docx.Convert(doc.paragraphs, doc.hasImage, images)
    case PdfRoute => Pdf.Convert(doc.pages, images)
    case PptxRoute => Pptx.Convert(doc.slides, images)
    case XMindRoute => XMind.Convert(XMind.ReadContent(doc.mindMap), images)
    case ReaderRoute => GetContentFromFile(path, onDisk, read)
  }

  /** A file with no image-aware route gets no images and its plain reader
      text. */
  lemma FallbackRoute(path: string, found: seq<string>, doc: Document, onDisk: bool, read: Reader -> string)
    requires RouteOf(path) == ReaderRoute
    ensures ExtractImagesFromDocument(path, found) == []
    ensures ConvertToMarkdown(path, ExtractImagesFromDocument(path, found), doc, onDisk, read)
      == GetContentFromFile(path, onDisk, read)
  {
  }

  /** None of the document's own text holds `![placeholder](`, and no DOCX
      heading has an unreadable level. */
  ghost predicate CleanDocument(doc: Document) {
    && (forall k :: 0 <= k < |doc.paragraphs| ==>
          Clean(doc.paragraphs[k].text) && !Docx.BadHeading(doc.paragraphs[k]))
    && (forall k :: 0 <= k < |doc.pages| ==> Clean(doc.pages[k].text))
    && (forall k :: 0 <= k < |doc.slides| ==> Pptx.CleanShapes(doc.slides[k].shapes))
    && Clean(XMind.ReadContent(doc.mindMap))
  }

  /** The two dispatchers chained as the pipeline chains them: the
      placeholders of the markdown name the extracted images in order — all
      of them for DOCX, PDF and PPTX, and for XMind as many as the text has
      marks. */
  lemma PipelinePlaceholders(path: string, found: seq<string>, doc: Document,
                             onDisk: bool, read: Reader -> string)
    requires RouteOf(path) != ReaderRoute
    requires CleanDocument(doc) && ValidPaths(found)
    ensures var images := ExtractImagesFromDocument(path, found);
      var bodies := Bodies(Parse(PlaceholderPattern, ConvertToMarkdown(path, images, doc, onDisk, read)));
      bodies <= images && (RouteOf(path) != XMindRoute ==> bodies == images)
  {
    match RouteOf(path)
    case DocxRoute => Docx.ConvertPlaceholders(doc.paragraphs, doc.hasImage, found);
    case PdfRoute => Pdf.ConvertPlaceholders(doc.pages, found);
    case PptxRoute => Pptx.ConvertPlaceholders(doc.slides, found);
    case XMindRoute =>
      XMind.ConvertPlaceholders(XMind.ReadContent(doc.mindMap), found);
  }

  // ---------------------------------------------------------------------------
  // Image-file filters of the extractors

  /** Kept from a DOCX's `word/media`. */
  const DocxMedia: seq<string> := [".png", ".jpg", ".jpeg", ".gif", ".bmp"]
  /** Kept from a PPTX's `ppt/media`. */
  const PptxMedia: seq<string> := [".png", ".jpg", ".jpeg", ".gif", ".bmp", ".tiff"]
  /** Kept by the XMind archive walk, the fallback taken when reading
      `content.json` raises; the normal path copies every referenced resource. */
  const XMindMedia: seq<string> := [".png", ".jpg", ".jpeg", ".gif", ".bmp", ".tiff", ".svg"]

  /** `any(filename.lower().endswith(ext) for ext in exts)`. */
  predicate IsMedia(name: string, exts: seq<string>) {
    exists k :: 0 <= k < |exts| && EndsWith(Lower(name), exts[k])
  }

  /** The files of a listing the extractor copies, in listing order. */
  function MediaFiles(names: seq<string>, exts: seq<string>): (kept: seq<string>)
    ensures |kept| <= |names|
    ensures forall n :: n in kept <==> n in names && IsMedia(n, exts)
    decreases |names|
  {
    if |names| == 0 then []
    else
      var rest := MediaFiles(names[1..], exts);
      assert forall n :: n in names <==> n == names[0] || n in names[1..];
      if IsMedia(names[0], exts) then [names[0]] + rest else rest
  }

  /** Each filter keeps what the previous one keeps. */
  lemma MediaFiltersNested(name: string)
    ensures IsMedia(name, DocxMedia) ==> IsMedia(name, PptxMedia)
    ensures IsMedia(name, PptxMedia) ==> IsMedia(name, XMindMedia)
  {
    if IsMedia(name, DocxMedia) {
      var k :| 0 <= k < |DocxMedia| && EndsWith(Lower(name), DocxMedia[k]);
      assert PptxMedia[k] == DocxMedia[k];
    }
    if IsMedia(name, PptxMedia) {
      var k :| 0 <= k < |PptxMedia| && EndsWith(Lower(name), PptxMedia[k]);
      assert XMindMedia[k] == PptxMedia[k];
    }
  }

  /** The filters ignore case. */
  lemma MediaIgnoresCase(name: string, exts: seq<string>)
    ensures IsMedia(Lower(name), exts) == IsMedia(name, exts)
  {
    LowerTwice(name);
  }

  /** Where the filters differ: TIFF only from PPTX and XMind, SVG only from
      XMind; the name's case does not matter. */
  lemma TiffFromPptxOnly()
    ensures IsMedia("a.TIFF", PptxMedia) && !IsMedia("a.TIFF", DocxMedia)
  {
    assert Lower("a.TIFF") == "a.tiff";
    assert EndsWith("a.tiff", PptxMedia[5]);
  }

  lemma SvgFromXMindOnly()
    ensures IsMedia("a.svg", XMindMedia) && !IsMedia("a.svg", PptxMedia)
  {
    assert Lower("a.svg") == "a.svg";
    assert EndsWith("a.svg", XMindMedia[6]);
  }

  // ---------------------------------------------------------------------------
  // `format_as_markdown`

  /** `s.lstrip(".")`: every leading dot removed. */
  function StripLeadingDots(s: string): (r: string)
    ensures |r| <= |s| && r == s[|s| - |r|..]
    ensures forall k :: 0 <= k < |s| - |r| ==> s[k] == '.'
    ensures r == [] || r[0] != '.'
    decreases |s|
  {
    if |s| > 0 && s[0] == '.' then StripLeadingDots(s[1..]) else s
  }

  /** The code-block language: the extension without its dots, with `text`
      for an empty one and for `docx`. */
  function Language(extension: string): (lang: string)
    ensures lang != [] && lang != "docx"
  {
    var l := StripLeadingDots(extension);
    if l == [] || l == "docx" then "text" else l
  }

  const Fence: string := "```"

  /** `format_as_markdown`: the fenced block gives back the language and the
      content, whatever the content holds, as long as the extension has no
      line break. */
  function FormatAsMarkdown(content: string, extension: string): (block: string)
    ensures (forall k :: 0 <= k < |extension| ==> extension[k] != '\n') ==>
      Unfence(block) == Some((Language(extension), content))
  {
    var lang := Language(extension);
    var block := Fence + lang + "\n" + content + "\n" + Fence;
    if forall k :: 0 <= k < |extension| ==> extension[k] != '\n' then
      assert forall k :: 0 <= k < |lang| ==> lang[k] != '\n';
      UnfenceBlock(lang, content);
      block
    else block
  }

  /** Index of the first `c` in `s`, or `|s|`. */
  function IndexOf(s: string, c: char): (i: nat)
    ensures i <= |s|
    ensures i < |s| ==> s[i] == c
    ensures forall k :: 0 <= k < i ==> s[k] != c
    decreases |s|
  {
    if |s| == 0 then 0 else if s[0] == c then 0 else 1 + IndexOf(s[1..], c)
  }

  /** Reading a fenced block back: the language is the rest of the first
      line, the content runs up to the closing line. */
  function Unfence(block: string): (r: Option<(string, string)>)
    ensures r.Some? ==> StartsWith(block, Fence) && EndsWith(block, "\n" + Fence)
  {
    if StartsWith(block, Fence) && EndsWith(block, "\n" + Fence) then
      var i := IndexOf(block, '\n');
      if 3 <= i && i + 1 <= |block| - 4 then
        Some((block[3..i], block[i + 1..|block| - 4]))
      else None
    else None
  }

  lemma UnfenceBlock(lang: string, content: string)
    requires forall k :: 0 <= k < |lang| ==> lang[k] != '\n'
    ensures Unfence(Fence + lang + "\n" + content + "\n" + Fence) == Some((lang, content))
  {
    var head := Fence + lang + "\n";
    var tail := "\n" + Fence;
    var block := head + content + tail;
    assert block == Fence + lang + "\n" + content + "\n" + Fence;
    FenceParts(head, content, tail);
    assert block[..3] == Fence && block[|block| - 4..] == tail;
    FirstLineBreak(block, lang);
    assert block[3..|head| - 1] == lang;
  }

  lemma {:induction false} FenceParts(head: string, content: string, tail: string)
    requires |head| >= 4 && |tail| == 4
    ensures var block := head + content + tail;
      && block[..3] == head[..3]
      && block[|block| - 4..] == tail
      && block[|head|..|block| - 4] == content
      && block[3..|head| - 1] == head[3..|head| - 1]
      && block[|head| - 1] == head[|head| - 1]
      && (forall k :: 0 <= k < |head| ==> block[k] == head[k])
  {
  }

  lemma FirstLineBreak(block: string, lang: string)
    requires forall k :: 0 <= k < |lang| ==> lang[k] != '\n'
    requires 4 + |lang| <= |block| && block[..3 + |lang| + 1] == Fence + lang + "\n"
    ensures IndexOf(block, '\n') == 3 + |lang|
  {
    var head := Fence + lang + "\n";
    assert forall k :: 0 <= k < |head| ==> block[k] == head[k];
    IndexOfAt(block, '\n', |head| - 1);
  }

  lemma IndexOfAt(s: string, c: char, i: nat)
    requires i < |s| && s[i] == c
    requires forall k :: 0 <= k < i ==> s[k] != c
    ensures IndexOf(s, c) == i
  {
    var j := IndexOf(s, c);
    assert !(j < i);
  }

  /** The language of an extension with one leading dot is its name, except
      that `.docx` is labelled `text`. */
  lemma LanguageOfExtension(name: string)
    requires name != [] && name[0] != '.'
    ensures Language("." + name) == if name == "docx" then "text" else name
  {
    assert ("." + name)[1..] == name;
  }

  /** Every leading dot goes, and no extension at all is labelled `text`. */
  lemma LanguageWithoutName(dots: nat)
    ensures Language(Repeat('.', dots)) == "text"
    decreases dots
  {
    if dots > 0 {
      assert Repeat('.', dots)[1..] == Repeat('.', dots - 1);
      LanguageWithoutName(dots - 1);
    }
  }
}
