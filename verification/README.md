# LinkContentAI document pipeline — Dafny model

This project models the text pipeline of `write_file_excel.py`. The pipeline takes a
linked document and turns it into Markdown:

1. It dispatches on the file extension.
2. It extracts the document's images.
3. It writes the document as Markdown, with images as placeholders
   `![placeholder](<path>)`. The converters hand out the extracted images in
   list order, so the i-th extracted image goes:
   - after the i-th paragraph that asks for one (DOCX);
   - into the i-th page slot (PDF);
   - after the i-th slide that asks for one (PPTX);
   - in place of the i-th `[[IMAGE_PLACEHOLDER_<id>]]` mark the XMind reader
     left (XMind).
4. After the images are described, `replace_placeholders` swaps every placeholder
   for a block holding its description.

Files without an image-aware route are read as plain text by the `FILE_READERS`
table. Spreadsheets are read sheet by sheet, and any content can be fenced as a
Markdown code block.

Modules, one file each:

- `Wrappers` (`wrappers.dfy`): `Option` and `Result`.
- `Text` (`text.dfy`): the Python string primitives the code relies on.
  - `sep.join`, `str.split` on one character, `str.strip` (over the
    `str.isspace` set), `str.replace`, `c * n`.
  - `str.lower` on ASCII letters, `str(n)`, `repr(s)`, and `int(s)` in base 10
    as CPython 3.12 reads a string: the white space it skips, signs,
    underscores between digits, the 4300-digit limit, and its error messages.
- `Scan` (`scan.dfy`): `re.sub`'s left-to-right scan for patterns of the shape
  *open, a non-empty run of one character class, close*.
  - Both regular expressions of the pipeline have that shape:
    `!\[placeholder\]\(([^)]+)\)` and `\[\[IMAGE_PLACEHOLDER_([a-fA-F0-9]+)\]\]`.
  - A scan is a list of copied characters and matches; it renders back to the
    text, and it is the only such list.
- `Substitution` (`substitution.dfy`): `replace_placeholders`.
- `Composer` (`composer.dfy`): the image cursor shared by the DOCX, PDF and PPTX
  converters.
- `Docx`, `Pdf`, `Pptx` (`docx.dfy`, `pdf.dfy`, `pptx.dfy`): the three positional
  converters.
- `XMind` (`xmind.dfy`): `extract_text_recursive` and the sheet loop of
  `read_xmind_content`, and `convert_xmind_to_markdown_with_placeholders`.
- `Spreadsheet` (`spreadsheet.dfy`): the row and sheet logic of `read_xlsx_content`.
- `Dispatch` (`dispatch.dfy`), which covers:
  - `os.path.splitext`;
  - `FILE_READERS` and `get_content_from_file`;
  - the dispatchers `extract_images_from_document` and
    `convert_to_markdown_with_placeholders`;
  - the image-file filters of the extractors;
  - `format_as_markdown`.

What the libraries would read from a file is an input to the model: python-docx
paragraphs, the XML picture flags, pdfplumber pages, python-pptx shapes, the
parsed `content.json` and the openpyxl cells. The filesystem's answer to
`os.path.exists` is an input too, as is what each reader and each image extractor
returns.

The central results:

- `Dispatch.PipelinePlaceholders` chains the two dispatchers. The placeholders of
  the produced Markdown name the extracted images in order:
  - all of them for DOCX, PDF and PPTX;
  - for XMind, one per mark, as far as the images go.
- The requirement is that the document's own text holds no `![placeholder](`,
  that no DOCX heading has a level `int()` or `'#' * n` rejects, and that the
  image paths are non-empty and free of `)`.
- `Substitution.ReplaceScanned` and `Substitution.ReplaceFirst` show how each
  placeholder is replaced by its own description block, everything else being kept.

Where the documentation and the code part ways, the model follows the code:

- The docstring of `replace_placeholders` (lines 886-888) says the placeholders
  are replaced by the image descriptions. It does not say what happens to
  placeholder syntax inside a description. The replacement text is never
  rescanned, so a description that itself contains `![placeholder](x)` leaves
  that text in the result (`Substitution.DescriptionsAreNotRescanned`).
- An image path containing `)` is not captured whole by the substitution pattern.
  The end-to-end results therefore require paths without `)`.
- The XMind reader builds the mark id from the whole file name before its
  extension, keeping its first 16 characters. The converter only matches
  hexadecimal ids, so a mark with another character in its id is not matched and
  gets no image (`XMind.NonHexMarkIsNotMatched`).
- `format_as_markdown` removes every leading dot of the extension, not just one.
- The XMind extractor's docstring (lines 397-400) promises the images at their
  positions. The image list is not built in document order, though:
  - the DOCX and PPTX extractors take files in `os.listdir` order (lines 304
    and 375);
  - the XMind extractor gathers the referenced resources in a `set()` (lines
    422-450), so their order follows string hashing and repeated references
    merge into one;
  - the XMind converter ignores the id in the mark (lines 729-740) and gives
    the i-th matched mark the i-th image.

  The model takes the extracted list as an input, so its results are about list
  order. Which file a given paragraph, slide or mark receives is not promised.

## Model

| member | source | states |
|---|---|---|
| Text.Strip | write_file_excel.py:570 | `str.strip()`: the result has no white space at either end and is the input with only white space removed around it; it is empty exactly when the input is all white space |
| Text.SplitJoin | write_file_excel.py:119 | pieces without the separator, joined and split again, come back unchanged |
| Text.ReplaceAll | write_file_excel.py:186 | `str.replace`: a text without the pattern is returned unchanged, and replacing by something no longer never lengthens the text |
| Text.Lower | write_file_excel.py:921-924 | `str.lower` keeps the length, leaves no ASCII capital behind, and leaves a text without capitals unchanged |
| Text.ParseInt | write_file_excel.py:574 | `int()` accepts only a text with a decimal digit in it, and refuses a number of more than 4300 digits with the digit count |
| Text.ParseIntOfNatToString | write_file_excel.py:574 | `int(str(n)) == n` for every `n` of at most 4300 digits: the heading level written by a style `Heading <n>` reads back as `n` |
| Text.ParseIntOfDigits | write_file_excel.py:574 | a run of ASCII digits reads as its decimal value up to 4300 digits, and above that fails with its digit count |
| Text.ParseIntOfLongNumber | write_file_excel.py:574 | `str(n)` of more than 4300 digits is refused by `int()` with its digit count |
| Text.SeparatorIsNoIntSpace | write_file_excel.py:574 | U+001C is white space to `strip` but not to `int()`, which rejects a level starting with it |
| Text.NoBreakSpaceIsSkipped | write_file_excel.py:574 | `int()` skips a no-break space on either side of the digits |
| Text.Repr | write_file_excel.py:574 | `repr()` quotes the text between two equal quotes, double ones exactly when the text has a single quote and no double quote, and never shortens it |
| Text.ReprPlain | write_file_excel.py:574 | printable text without quote or backslash is written by `repr()` between single quotes, unchanged |
| Text.ReprOfTab | write_file_excel.py:574 | `repr()` writes a tab as a backslash and `t` |
| Text.LongReprIsCut | write_file_excel.py:574 | the message for a level of 199 characters or more ends with the representation's 200th character |
| Text.ReplaceAtStart | write_file_excel.py:186 | `str.replace` removes an occurrence at the start and goes on with the rest |
| Scan.Parse | write_file_excel.py:904 | the scan `re.sub` performs renders back to the input text and is a well-formed scan: every match has a valid group and no match starts at a copied character |
| Scan.ParseOfScanned | write_file_excel.py:904 | the scan is unique: any well-formed scan of a text is the one `Parse` finds |
| Scan.MatchOfOccurrence | write_file_excel.py:891 | the pattern finds every occurrence with a valid group, and reports exactly that group |
| Scan.NoMatchWithoutOpen | write_file_excel.py:891 | a match can only start at the first character of the pattern's opening text |
| Scan.ParseLiteralPrefix | write_file_excel.py:904 | text in which no match starts is copied unchanged and the scan resumes behind it |
| Scan.ParseOccurrencePrefix | write_file_excel.py:904 | an occurrence at the front is one match, after which scanning resumes right behind it |
| Scan.BodiesAppend | write_file_excel.py:904 | the groups of two scans side by side are the groups of each, in order |
| Substitution.ReplacePlaceholders | write_file_excel.py:885-909 | text without a placeholder is returned unchanged |
| Substitution.ReplaceScanned | write_file_excel.py:893-904 | each match becomes its description block or its not-found block, and each copied character stays |
| Substitution.ReplaceFirst | write_file_excel.py:893-904 | the first placeholder is replaced by its block, the text before it kept and the text after it substituted in turn |
| Substitution.ReplaceLonePlaceholder | write_file_excel.py:895-899 | a described path becomes the `**图片描述:**` block between two rules of sixteen `=` |
| Substitution.ScenarioDescribed | write_file_excel.py:895-899 | a described placeholder between two lines of text becomes its description block, the lines kept |
| Substitution.ScenarioMissing | write_file_excel.py:900-901 | a placeholder without description becomes the `[未找到图片 <path> 的描述]` block |
| Substitution.EmptyPathIsKept | write_file_excel.py:891 | `![placeholder]()` is not a match (the group needs a character) and is left as it is |
| Substitution.DescriptionsAreNotRescanned | write_file_excel.py:899-904 | placeholder syntax inside a description survives the substitution |
| Substitution.ReplaceWithoutBang | write_file_excel.py:904 | text without `!` is never changed |
| Substitution.ReplaceBetweenPlainText | write_file_excel.py:893-904 | a placeholder between two stretches of text without `!` is replaced and both stretches kept |
| Substitution.CleanStrip | write_file_excel.py:570 | stripping text without `![placeholder](` cannot create one |
| Composer.Placement | write_file_excel.py:569-585 | the lines are each unit's text with its images, followed by the images no unit claimed |
| Composer.Compose | write_file_excel.py:569-585 | over units that hold only text, the lines carry every image from the cursor on exactly once, in order, whatever the units ask for |
| Composer.ShareOfUnit | write_file_excel.py:579-581 | a unit receives as many images as it asks for, as far as unplaced images remain |
| Composer.PlaceholdersOfMarkdown | write_file_excel.py:588 | joining the lines keeps the placeholders readable: the substitution pattern finds exactly the lines' images, in order |
| Composer.ComposedPlaceholders | write_file_excel.py:569-588 | the joined Markdown of a composition over clean text holds the placeholders of all images, in order |
| Docx.LevelError | write_file_excel.py:572-574 | the level is accepted exactly when `int()` reads it and the value fits `sys.maxsize`; otherwise the error is `int()`'s invalid-literal or digit-limit message, or the `OverflowError` message of `'#' * n` |
| Docx.ParagraphLine | write_file_excel.py:570-576 | a blank paragraph gives no line; a non-heading gives its stripped text and a newline; the result is an error exactly for a heading whose level `int()` rejects or that does not fit `sys.maxsize`, and the error is that message |
| Docx.HeadingLine | write_file_excel.py:572-574 | a paragraph of style `Heading <n>`, `n` up to `sys.maxsize`, becomes `n` hashes, a space, the stripped text and a newline |
| Docx.HeadingTooLarge | write_file_excel.py:572-574 | a level above `sys.maxsize` fails with `cannot fit 'int' into an index-sized integer` |
| Docx.HeadingTooLong | write_file_excel.py:572-574 | a level of more than 4300 digits fails with `int()`'s digit-limit message |
| Docx.DigitlessHeadingFails | write_file_excel.py:572-574 | a heading style without digits and without `Heading ` in it, such as `Heading`, fails with `invalid literal for int() with base 10: '<style>'` |
| Docx.TabbedLevelIsEscaped | write_file_excel.py:572-574 | the message quotes the level as `repr()` does: a tab in it is written as a backslash and `t` |
| Docx.HeadingStyle | write_file_excel.py:572-573 | `Heading <digits>` is a heading style, and removing `Heading ` from it leaves the digits |
| Docx.ParagraphUnit | write_file_excel.py:569-581 | a paragraph contributes at most one text line and asks for one image exactly when its index was recorded |
| Docx.Units | write_file_excel.py:569-581 | when no heading fails, every paragraph has its unit, in order |
| Docx.UnitsSucceed | write_file_excel.py:569-576 | the paragraphs convert exactly when none is a heading with a bad level |
| Docx.UnitsFailAtFirstBad | write_file_excel.py:574 | the conversion fails at the first bad heading and reports that level's error message |
| Docx.Lines | write_file_excel.py:569-585 | the line list exists exactly when no heading is bad, and then holds every image once, in order |
| Docx.Convert | write_file_excel.py:568-591 | with a bad heading anywhere the result starts with `转换DOCX时出错: ` |
| Docx.ConvertFailure | write_file_excel.py:568-591 | a bad heading makes the whole result `转换DOCX时出错: ` followed by the message of the first such level: `int()`'s (with the level written by `%.200R`) or the `OverflowError` one |
| Docx.WantedIsMarked | write_file_excel.py:579 | the images asked for before a paragraph are the recorded indices before it |
| Docx.ParagraphImage | write_file_excel.py:579-581 | paragraph `k`'s text is followed by one image exactly when its XML paragraph holds a picture and images remain; that image is the one counted by the recorded indices before `k` |
| Docx.ConvertPlaceholders | write_file_excel.py:520-588 | over text without `![placeholder](`, the converted Markdown's placeholders are exactly the images, in order |
| Composer.UnitHeader | write_file_excel.py:630 | the page header (and the slide header of line 672) is longer than its fixed texts and holds a `!` exactly when they do, so a header never starts a placeholder |
| Pdf.PageBlock | write_file_excel.py:627-642 | page `k` of the Markdown is its `--- 第 k+1 页 ---` header, its text when non-empty, and then the images from where the earlier pages' image counts reach, as many as the page lists while images remain |
| Pdf.PageImages | write_file_excel.py:635-642 | the images after page `k` start at the number of images listed by the earlier pages, and page `k` receives as many as it lists while images remain |
| Pdf.Convert | write_file_excel.py:594-650 | the Markdown is each page's block with the images numbered from `Position(k)` up to `Position(k + 1)`, then the images no page claimed, joined by blank lines |
| Pdf.ConvertPlaceholders | write_file_excel.py:594-650 | over page text without `![placeholder](`, the placeholders of the Markdown are exactly the images, in order |
| Pptx.ShapeLines | write_file_excel.py:675-685 | only shapes with non-blank text contribute lines, and a slide without any contributes none |
| Pptx.ShapeLinesAppend | write_file_excel.py:675-685 | shapes are written in their order on the slide |
| Pptx.ShapeLine | write_file_excel.py:676-685 | a title placeholder's text becomes a `##` heading set off by newlines, any other shape's text its stripped text and a newline; the line starts with a newline exactly for a title |
| Pptx.SlideBlock | write_file_excel.py:670-697 | slide `k` of the Markdown is its `--- 幻灯片 k+1 ---` header, the lines of its shapes with text, and then the next image when it holds a picture and one remains after those of the earlier picture slides |
| Pptx.SlideImages | write_file_excel.py:689-697 | the image after slide `k` is the one numbered by the earlier slides with pictures, and a slide receives one only when it has a picture and images remain |
| Pptx.Convert | write_file_excel.py:656-704 | the Markdown is each slide's block with the images numbered from `Position(k)` up to `Position(k + 1)`, then the images no slide claimed, joined by newlines |
| Pptx.ConvertPlaceholders | write_file_excel.py:656-704 | over shape text without `![placeholder](`, the placeholders of the Markdown are exactly the images, in order |
| XMind.Extension | write_file_excel.py:187-189 | a found extension is a non-empty run of ASCII letters and digits following a dot at the end of the text, or before a final newline |
| XMind.ExtensionOfName | write_file_excel.py:187-189 | a name ending in a dot and letters or digits has those as its extension |
| XMind.ImageToken | write_file_excel.py:184-195 | a mark is produced exactly for a non-empty source mentioning `resources/` whose name, once `xap:resources/` is removed, has an extension |
| XMind.ResourceToken | write_file_excel.py:184-195 | a source `xap:resources/<name>.<ext>` gives the mark of the name's first 16 characters, whatever the name holds besides `xap:resources/` |
| XMind.DotlessResourceHasNoMark | write_file_excel.py:186-189 | a resource name without a dot has no extension and gets no mark |
| XMind.NoPrefixBeforeExtension | write_file_excel.py:186 | appending a dot and an extension to a name cannot create `xap:resources/` in it |
| XMind.ResourceSource | write_file_excel.py:185-186 | such a source qualifies, and removing `xap:resources/` leaves the file name |
| XMind.NonHexMarkIsNotMatched | write_file_excel.py:724 | a mark whose id has a character outside `[a-fA-F0-9]` (the reader, at line 193, takes any) is not matched by the converter's pattern |
| XMind.TitleLines | write_file_excel.py:175-195 | a topic shows a title line only for a non-blank title, and an image mark only under a title |
| XMind.DetailLines | write_file_excel.py:197-213 | the note line, the labels line and the link line, in that order, each present exactly when its value is non-blank (labels: non-empty) and each holding the stripped value or the comma-joined labels |
| XMind.DetailsIgnoreTitle | write_file_excel.py:175-213 | the note, labels and link lines do not depend on the title or the image |
| XMind.UntitledTopicKeepsDetails | write_file_excel.py:175-213 | a topic with a missing or blank title still shows its note, labels and link |
| XMind.Walk | write_file_excel.py:172-223 | every line of a topic at level `n` starts with `2n` spaces |
| XMind.WalkList | write_file_excel.py:218-221 | every line of the subtopics at level `n` starts with `2n` spaces |
| XMind.WalkIsPreorder | write_file_excel.py:172-221 | the walk writes the topics in preorder, each at its depth |
| XMind.WalkListIsPreorder | write_file_excel.py:218-221 | the subtopics are written one after the other, each in preorder |
| XMind.Preorder | write_file_excel.py:219-220 | the first visit is the topic itself, and no visit is shallower than it |
| XMind.ReadContent | write_file_excel.py:237-248 | the reader answers `无法解析XMind文件内容` exactly when the content is not a list or has no sheets |
| XMind.Rewrite | write_file_excel.py:733-740 | once the images are used up, every further mark is written back unchanged |
| XMind.Convert | write_file_excel.py:710-745 | without images the converter returns the reader's text unchanged |
| XMind.ConvertPlaceholders | write_file_excel.py:710-745 | over reader text without `![placeholder](`, the converted text's placeholders are the first images, one per mark, as far as both go |
| Spreadsheet.PresentEmpty | write_file_excel.py:112-115 | a row gives no values exactly when all its cells are empty |
| Spreadsheet.RowLineNone | write_file_excel.py:112-116 | a row gives no line exactly when all its cells are empty |
| Spreadsheet.PresentValues | write_file_excel.py:112 | the values are exactly those of the non-empty cells |
| Spreadsheet.PresentAppend | write_file_excel.py:112 | cells are read in column order |
| Spreadsheet.RowLineSplits | write_file_excel.py:115-116 | when no value holds a tab, the row line splits back into the row's values |
| Spreadsheet.RowLinesCount | write_file_excel.py:109-116 | a sheet gives one line per row with a value |
| Spreadsheet.RowLinesAppend | write_file_excel.py:109-116 | rows are written in order |
| Spreadsheet.SheetLines | write_file_excel.py:106-119 | when no title or value holds a newline, a sheet's text splits into its header and its row lines |
| Spreadsheet.ReadXlsx | write_file_excel.py:90-127 | an empty workbook gives the empty text and one sheet its text; a second sheet follows the first after a blank line; both error texts end with the quoted path or the error |
| Spreadsheet.ReadMoreSheets | write_file_excel.py:122 | sheets are separated by a blank line |
| Spreadsheet.ScenarioSheet | write_file_excel.py:101-119 | two filled rows around an empty one on sheet `Sheet1` give the header and two tab-separated lines |
| Dispatch.SplitExt | write_file_excel.py:921 | `os.path.splitext`: root and extension make up the path, and a non-empty extension is one dot followed by neither dots nor separators |
| Dispatch.ExtensionOfName | write_file_excel.py:921 | `<dir>/<stem>.<suffix>` has extension `.<suffix>` whenever the stem has a character other than a dot |
| Dispatch.NameWithoutExtension | write_file_excel.py:921 | names such as `.bashrc` or `README` have no extension |
| Dispatch.LowerSplitExt | write_file_excel.py:921-924 | splitting the lowered path (as the dispatchers do at lines 505 and 757) lowers the extension and nothing else, so both ways of looking at the extension agree |
| Dispatch.ReaderFor | write_file_excel.py:779-787 | the table gives a reader exactly when the lowered extension is that reader's key |
| Dispatch.GetContentFromFile | write_file_excel.py:912-931 | a missing file gives the not-found message, a registered extension gives that reader's text, any other extension gives the unsupported message naming it as written |
| Dispatch.ReaderIgnoresCase | write_file_excel.py:921-924 | the reader chosen for the lowered path is the one chosen for the path |
| Dispatch.HiddenFileUnsupported | write_file_excel.py:921-931 | a file named only `.txt` has no extension and is reported as unsupported with an empty type |
| Dispatch.RoutesAgreeWithReaders | write_file_excel.py:751-787 | a path takes the DOCX, PDF, PPTX or XMind route exactly when the table reads it with that format's reader; text, spreadsheets and unknown types take the fallback |
| Dispatch.ExtractImagesFromDocument | write_file_excel.py:505-516 | the extractor's result exactly for a path whose extension, in any case, is `.docx`, `.pdf`, `.pptx` or `.xmind`, and no images for any other path |
| Dispatch.RouteOfImageFormat | write_file_excel.py:505 | lowering the path before splitting it picks the same formats as lowering the extension after, so the fallback route is taken exactly for the other extensions |
| Dispatch.FallbackRoute | write_file_excel.py:770-775 | a file without image-aware route gets no images and its reader text |
| Dispatch.ConvertToMarkdown | write_file_excel.py:751-775 | on the fallback route a missing file gives the not-found message and an unregistered extension the unsupported one; an XMind map without images gives the reader's text |
| Dispatch.PipelinePlaceholders | write_file_excel.py:751-775 | the converted Markdown's placeholders are the extracted images, in order: all of them for DOCX, PDF and PPTX, a prefix of them for XMind |
| Dispatch.MediaFiles | write_file_excel.py:304-308 | a listed file is kept exactly when its lowered name ends with one of the filter's extensions |
| Dispatch.MediaFiltersNested | write_file_excel.py:375-378 | whatever the DOCX filter (line 307) keeps the PPTX filter keeps, and whatever that keeps the XMind fallback filter (lines 473-481) keeps |
| Dispatch.MediaIgnoresCase | write_file_excel.py:305-306 | the filters ignore case |
| Dispatch.TiffFromPptxOnly | write_file_excel.py:375-378 | `a.TIFF` is kept from a PPTX but not from a DOCX |
| Dispatch.SvgFromXMindOnly | write_file_excel.py:470-482 | `a.svg` is kept only by the XMind fallback walk, taken when reading `content.json` raises |
| Dispatch.StripLeadingDots | write_file_excel.py:942 | `lstrip(".")` removes all leading dots and nothing else |
| Dispatch.Language | write_file_excel.py:942-946 | the language is never empty and never `docx` |
| Dispatch.FormatAsMarkdown | write_file_excel.py:934-948 | the fenced block gives back the language and the content, whatever the content holds, when the extension has no line break |
| Dispatch.LanguageOfExtension | write_file_excel.py:942-946 | `.<name>` is labelled `<name>`, except `.docx`, which is labelled `text` |
| Dispatch.LanguageWithoutName | write_file_excel.py:942-946 | an extension of dots only is labelled `text` |

## Left out

- File access and the parsing libraries are left out. python-docx, the DOCX XML
  scan, pdfplumber, python-pptx, openpyxl, zipfile and json become inputs.
  `os.path.exists`, the readers' results and the image extractors' results are
  parameters.
- `read_txt_content`, `read_docx_content`, `read_pptx_content` and
  `read_pdf_content` are not modelled. They are thin library calls; the table
  routes to them as opaque readers.
- The image extractors' copying, temporary directories and `TempFileManager` are
  file I/O. Only their extension filters are modelled.
- The XMind extractor filters by extension only in its fallback walk (lines
  464-487), which runs when reading `content.json` raises. Its normal path
  (lines 445-460) copies every referenced resource that exists, whatever its
  extension. Without a `content.json` it extracts nothing (lines 461-462). Which
  path runs depends on the archive, so the extractor's result stays an input.
- The DOCX XML paragraph list may differ from python-docx's paragraph list: tables
  and text boxes hold `w:p` elements too. The model takes the picture flags by
  paragraph index, as the code does, and does not decide which list is right.
- The XMind reader's `FileNotFoundError` and exception messages (lines 250-253),
  and its `manifest.json` read, are not modelled. The manifest is read but never
  used.
- A non-string `title` (line 178), `note` or `link` would make `.strip()` raise,
  and a non-string label would make `', '.join(labels)` (line 207) raise. Either
  ends in the reader's exception message (line 253). The model takes these
  fields as strings and the labels as a list of strings.
- The PDF, PPTX and XMind converters' exception branches are not modelled. They
  only catch library errors. The DOCX branch for a non-integer heading level is
  modelled.
- `replace_placeholders`' exception branch is not modelled: nothing in the
  substitution raises.
- `encode_image_to_base64`, `analyze_images_with_qwen_vl`, `process_excel_in_place`,
  `main` and all printing are not modelled. They are network, LLM and workbook
  writing.
- `Text.Lower`: lowers only ASCII letters. It is exact for every extension the
  code compares, but not for other Unicode letters.
- `Text.ParseInt`: reads ASCII digits only. Python's `int()` also accepts other
  Unicode decimal digits. The digit limit is checked after the syntax, as
  CPython 3.12 does; older releases without the limit are not modelled.
- `Text.Repr`: treats as unprintable only control characters and separators
  other than the space. Format, private-use and unassigned characters, which
  Python's `repr()` also escapes, are kept as they are.
- `Docx.ConvertFailure`: the message quotes the level with `Text.Repr`, so it
  inherits that gap for format, private-use and unassigned characters. It also
  shares the `MemoryError` gap of `Docx.UnitsFailAtFirstBad`.
- `Docx.ParagraphLine`: a paragraph's style is always a named style here. In
  python-docx, `para.style` is `None` when the document has no default paragraph
  style and the paragraph names none it knows, and `style.name` is `None` for a
  style without a name. Either makes line 572 raise `AttributeError`, which
  line 591 turns into the error text. That case is not modelled.
- `Docx.UnitsSucceed`: the same missing-style gap. A non-blank paragraph without
  a style name converts here but raises in the program. `Docx.Lines` shares it.
- `Docx.ParagraphLine`: a level that fits `sys.maxsize` but is too large for
  `'#' * n` to allocate raises `MemoryError`, whose message is empty. The model
  writes the heading. The limit depends on the machine's memory.
- `Docx.HeadingLine`: the same `MemoryError` gap for levels close to
  `sys.maxsize`.
- `Docx.UnitsSucceed`: counts such a level as converting; the same
  `MemoryError` gap.
- `Docx.ConvertPlaceholders`: the same `MemoryError` gap.
- `Docx.UnitsFailAtFirstBad`: the same `MemoryError` gap. A paragraph whose level is
  too large to allocate, placed before the first bad heading, would fail first in
  the program, with an empty message.
- `Docx.Lines`: the same `MemoryError` gap as `Docx.UnitsSucceed`.
- `Spreadsheet.Present`: `str(cell.value)` is taken as given text per cell.
  Number and date formatting is openpyxl's.
- `Dispatch.SplitExt`: follows Windows path rules, where both `/` and `\`
  separate components. On POSIX, `\` is an ordinary character.
- `Dispatch.PipelinePlaceholders`: covers clean document text and paths without
  `)`. The same `MemoryError` gap as `Docx.ParagraphLine` applies to DOCX
  headings. When a path contains `)`, the substitution pattern captures only part of it.
