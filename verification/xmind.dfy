/** `read_xmind_content` and `convert_xmind_to_markdown_with_placeholders`: the
    topic tree of every sheet written as an indented list, image topics marked
    with `[[IMAGE_PLACEHOLDER_<id>]]`, and those marks later swapped, in
    order, for the placeholders of the extracted images. */
module XMind {
  import opened Wrappers
  import opened Text
  import opened Scan
  import opened Substitution

  /** A topic of `content.json`, with the keys the reader looks at. Absent keys
      and JSON null are `None` or empty; `children` is `children.attached`. */
  datatype Topic = Topic(
    title: Option<string>,
    imageSrc: Option<string>,
    note: Option<string>,
    labels: seq<string>,
    link: Option<string>,
    children: seq<Topic>)

  datatype Sheet = Sheet(title: Option<string>, rootTopic: Option<Topic>)

  /** The parsed `content.json`: a list of sheets, or some other JSON value. */
  datatype Content = Sheets(sheets: seq<Sheet>) | NotAList

  const Fallback := "无法解析XMind文件内容"

  // ---------------------------------------------------------------------------
  // Image marks

  const TokenOpen := "[[IMAGE_PLACEHOLDER_"
  const TokenClose := "]]"

  /** `\[\[IMAGE_PLACEHOLDER_([a-fA-F0-9]+)\]\]`. */
  const TokenPattern := Pattern(TokenOpen, HexDigit, TokenClose)

  function Token(id: string): string {
    TokenOpen + id + TokenClose
  }

  predicate IsAlnum(c: char) {
    'a' <= c <= 'z' || 'A' <= c <= 'Z' || '0' <= c <= '9'
  }

  /** Length of the maximal run of ASCII letters and digits that ends at `e`. */
  function AlnumRunBefore(s: string, e: nat): (n: nat)
    requires e <= |s|
    ensures n <= e
    ensures forall i :: e - n <= i < e ==> IsAlnum(s[i])
    ensures n < e ==> !IsAlnum(s[e - n - 1])
    decreases e
  {
    if e == 0 || !IsAlnum(s[e - 1]) then 0 else 1 + AlnumRunBefore(s, e - 1)
  }

  /** Where `$` lets a match end: at the end of the text, or just before a final
      newline. */
  function MatchEnd(s: string): (e: nat)
    ensures e <= |s|
  {
    if |s| > 0 && s[|s| - 1] == '\n' then |s| - 1 else |s|
  }

  /** The group of `re.search(r"\.([a-zA-Z0-9]+)$", path)`: a dot, then letters
      and digits up to where `$` matches. A dot is no letter, so the run in
      front of that point decides the match. */
  function Extension(path: string): (ext: Option<string>)
    ensures ext.Some? ==> 0 < |ext.value| && |ext.value| + 1 <= MatchEnd(path)
    ensures ext.Some? ==> forall k :: 0 <= k < |ext.value| ==> IsAlnum(ext.value[k])
    ensures ext.Some? ==>
      path[MatchEnd(path) - |ext.value| - 1..MatchEnd(path)] == "." + ext.value
  {
    var e := MatchEnd(path);
    var n := AlnumRunBefore(path, e);
    if n > 0 && n < e && path[e - n - 1] == '.' then
      assert path[e - n - 1..e] == "." + path[e - n..e];
      Some(path[e - n..e])
    else None
  }

  /** A name ending in a dot and letters or digits has those as its extension. */
  lemma ExtensionOfName(stem: string, ext: string)
    requires |ext| > 0 && forall k :: 0 <= k < |ext| ==> IsAlnum(ext[k])
    ensures Extension(stem + "." + ext) == Some(ext)
  {
    var head := stem + ".";
    var path := head + ext;
    assert path[|path| - 1] == ext[|ext| - 1];
    assert MatchEnd(path) == |path|;
    RunOfAlnumSuffix(head, ext);
    assert path[|path| - |ext| - 1] == head[|head| - 1] == '.';
    assert path[|path| - |ext|..|path|] == ext;
  }

  lemma {:induction false} RunOfAlnumSuffix(head: string, ext: string)
    requires |head| > 0 && !IsAlnum(head[|head| - 1])
    requires forall k :: 0 <= k < |ext| ==> IsAlnum(ext[k])
    ensures AlnumRunBefore(head + ext, |head + ext|) == |ext|
    decreases |ext|
  {
    if |ext| == 0 {
      assert head + ext == head;
    } else {
      var init := ext[..|ext| - 1];
      RunOfAlnumSuffix(head, init);
      assert (head + ext)[..|head + init|] == head + init;
      RunPrefix(head + ext, |head + init|);
    }
  }

  /** The run ending at `e` depends only on the text before `e`. */
  lemma {:induction false} RunPrefix(s: string, e: nat)
    requires e <= |s|
    ensures AlnumRunBefore(s, e) == AlnumRunBefore(s[..e], e)
    decreases e
  {
    if e > 0 {
      RunPrefix(s, e - 1);
      RunPrefix(s[..e], e - 1);
      assert s[..e][..e - 1] == s[..e - 1];
    }
  }

  /** The mark of an image source: only a non-empty source mentioning
      `resources/` qualifies; `xap:resources/` is removed, the file name must
      have an extension, and the id is the first 16 characters of the name
      without it. */
  function ImageToken(src: Option<string>): (token: Option<string>)
    ensures token.Some? <==>
      && src.Some? && src.value != "" && Contains(src.value, "resources/")
      && Extension(ReplaceAll(src.value, "xap:resources/", "")).Some?
  {
    if src.Some? && src.value != "" && Contains(src.value, "resources/") then
      var path := ReplaceAll(src.value, "xap:resources/", "");
      match Extension(path)
      case None => None
      case Some(ext) =>
        var hash := path[..|path| - |ext| - 1];
        Some(Token(hash[..Min(16, |hash|)]))
    else None
  }

  /** The reader takes the id from the file name whatever its characters, but
      the converter's pattern only accepts hexadecimal ids: a mark whose id has
      another character (and no `]`) is not matched where it starts. */
  lemma NonHexMarkIsNotMatched(id: string, rest: string)
    requires exists k :: 0 <= k < |id| && !InClass(HexDigit, id[k])
    requires forall k :: 0 <= k < |id| ==> id[k] != ']'
    ensures MatchAt(TokenPattern, Token(id) + rest) == None
  {
    var s := Token(id) + rest;
    assert s == TokenOpen + (id + TokenClose + rest);
    var t := s[|TokenOpen|..];
    assert t == id + TokenClose + rest;
    var n := RunLength(HexDigit, t);
    var k :| 0 <= k < |id| && !InClass(HexDigit, id[k]);
    assert t[k] == id[k];
    assert n <= k;
    assert t[n] == id[n] != TokenClose[0];
  }

  // ---------------------------------------------------------------------------
  // The topic walk (`extract_text_recursive`)

  /** Two spaces per level. */
  function Indent(level: nat): (s: string)
    ensures |s| == 2 * level
    ensures forall k :: 0 <= k < |s| ==> s[k] == ' '
  {
    Repeat(' ', 2 * level)
  }

  /** A line at `level`: its indentation followed by `rest`. */
  function IndentLine(level: nat, rest: string): string {
    Indent(level) + rest
  }

  predicate HasTitle(t: Topic) {
    t.title.Some? && !IsBlank(t.title.value)
  }

  /** The title line and, right under it, the image mark; a topic without a
      title shows neither, even when it has an image. */
  function TitleLines(t: Topic, level: nat): (lines: seq<string>)
    ensures |lines| == if !HasTitle(t) then 0 else if ImageToken(t.imageSrc).Some? then 2 else 1
  {
    if HasTitle(t) then
      var title := IndentLine(level, "- " + Strip(t.title.value));
      match ImageToken(t.imageSrc)
      case None => [title]
      case Some(token) => [title, IndentLine(level, "  " + token)]
    else []
  }

  predicate HasNote(t: Topic) {
    t.note.Some? && !IsBlank(t.note.value)
  }

  predicate HasLink(t: Topic) {
    t.link.Some? && !IsBlank(t.link.value)
  }

  /** The note, label and link lines, in that order, each present exactly when
      its own value is non-blank (labels: non-empty), whatever the title. */
  function DetailLines(t: Topic, level: nat): (lines: seq<string>)
    ensures |lines| == (if HasNote(t) then 1 else 0) + (if |t.labels| > 0 then 1 else 0)
                       + (if HasLink(t) then 1 else 0)
    ensures HasNote(t) ==> lines[0] == IndentLine(level, "  注释: " + Strip(t.note.value))
    ensures |t.labels| > 0 ==>
      lines[if HasNote(t) then 1 else 0] == IndentLine(level, "  标签: " + Join(t.labels, ", "))
    ensures HasLink(t) ==> lines[|lines| - 1] == IndentLine(level, "  链接: " + Strip(t.link.value))
  {
    (if t.note.Some? && !IsBlank(t.note.value)
     then [IndentLine(level, "  注释: " + Strip(t.note.value))] else [])
    + (if |t.labels| > 0 then [IndentLine(level, "  标签: " + Join(t.labels, ", "))] else [])
    + (if t.link.Some? && !IsBlank(t.link.value)
       then [IndentLine(level, "  链接: " + Strip(t.link.value))] else [])
  }

  /** The detail lines read neither the title nor the image source. */
  lemma DetailsIgnoreTitle(t: Topic, title: Option<string>, imageSrc: Option<string>, level: nat)
    ensures DetailLines(t.(title := title, imageSrc := imageSrc), level) == DetailLines(t, level)
  {
  }

  /** A topic without a title still shows its note, labels and link. */
  lemma UntitledTopicKeepsDetails(t: Topic, level: nat)
    requires !HasTitle(t)
    ensures OwnLines(t, level) == DetailLines(t, level)
  {
    assert TitleLines(t, level) == [];
  }

  function OwnLines(t: Topic, level: nat): seq<string> {
    TitleLines(t, level) + DetailLines(t, level)
  }

  /** The lines of a topic and its attached subtopics, subtopics one level
      deeper: every line starts with the topic's indentation. */
  function Walk(t: Topic, level: nat): (lines: seq<string>)
    ensures forall k :: 0 <= k < |lines| ==> StartsWith(lines[k], Indent(level))
    decreases t
  {
    var rest := WalkList(t.children, level + 1);
    OwnLinesIndented(t, level, level);
    IndentsNest(rest, level);
    LinesAppend(OwnLines(t, level), rest, level);
    OwnLines(t, level) + rest
  }

  function WalkList(ts: seq<Topic>, level: nat): (lines: seq<string>)
    ensures forall k :: 0 <= k < |lines| ==> StartsWith(lines[k], Indent(level))
    decreases ts
  {
    if |ts| == 0 then []
    else
      LinesAppend(Walk(ts[0], level), WalkList(ts[1..], level), level);
      Walk(ts[0], level) + WalkList(ts[1..], level)
  }

  // ---------------------------------------------------------------------------
  // Sheets

  function SheetLines(s: Sheet): (lines: seq<string>)
    ensures |lines| >= 1
  {
    [if s.title.Some? && s.title.value != "" then "# " + s.title.value + " #\n" else "\n=== 工作表 ===\n"]
    + (if s.rootTopic.Some? then Walk(s.rootTopic.value, 0) else [])
  }

  function AllSheetLines(sheets: seq<Sheet>): (lines: seq<string>)
    ensures |lines| >= |sheets|
    decreases |sheets|
  {
    if |sheets| == 0 then [] else SheetLines(sheets[0]) + AllSheetLines(sheets[1..])
  }

  /** `read_xmind_content` after the archive is opened and `content.json`
      parsed. The fallback text comes out exactly when there is no sheet list
      or it is empty: every sheet writes at least its header line, and the
      joined lines start with `#` or a newline. */
  function ReadContent(c: Content): (r: string)
    ensures r == Fallback <==> c.NotAList? || |c.sheets| == 0
  {
    var lines := if c.Sheets? then AllSheetLines(c.sheets) else [];
    if |lines| == 0 then Fallback
    else
      assert c.Sheets? && lines[0] == SheetLines(c.sheets[0])[0];
      JoinStartsWithFirst(lines, "\n");
      assert Fallback[0] == '无';
      Join(lines, "\n")
  }

  /** A source `xap:resources/<name>.<ext>` yields the mark of the name's first
      16 characters, whatever those characters are, as long as the name does
      not itself hold `xap:resources/`. */
  lemma ResourceToken(name: string, ext: string)
    requires |ext| > 0 && forall k :: 0 <= k < |ext| ==> IsAlnum(ext[k])
    requires !Contains(name, "xap:resources/")
    ensures ImageToken(Some("xap:resources/" + (name + "." + ext))) == Some(Token(name[..Min(16, |name|)]))
  {
    var file := name + "." + ext;
    NoPrefixBeforeExtension(name, ext);
    ResourceSource(file);
    ExtensionOfName(name, ext);
    TokenOfFile("xap:resources/" + file, file, ext);
    assert file[..|file| - |ext| - 1] == name;
  }

  /** A qualifying source whose file name has an extension gets the mark of
      the name before it. */
  lemma TokenOfFile(src: string, file: string, ext: string)
    requires src != "" && Contains(src, "resources/")
    requires ReplaceAll(src, "xap:resources/", "") == file && Extension(file) == Some(ext)
    ensures |ext| + 1 <= |file|
    ensures var hash := file[..|file| - |ext| - 1];
      ImageToken(Some(src)) == Some(Token(hash[..Min(16, |hash|)]))
  {
    assert MatchEnd(file) <= |file|;
    var hash := file[..|file| - |ext| - 1];
    assert ImageToken(Some(src)) == Some(Token(hash[..Min(16, |hash|)])) by {
      assert Extension(ReplaceAll(src, "xap:resources/", "")) == Some(ext);
    }
  }

  /** `xap:resources/` ends in `/`, which an extension does not hold: the file
      name holds the prefix only where the name does. */
  lemma NoPrefixBeforeExtension(name: string, ext: string)
    requires forall k :: 0 <= k < |ext| ==> IsAlnum(ext[k])
    requires !Contains(name, "xap:resources/")
    ensures !Contains(name + "." + ext, "xap:resources/")
  {
    var file := name + "." + ext;
    var pat := "xap:resources/";
    forall i | 0 <= i <= |file| - |pat|
      ensures !OccursAt(file, pat, i)
    {
      assert pat[13] == '/';
      if i + 13 < |name| {
        assert file[i..i + |pat|] == name[i..i + |pat|];
        assert !OccursAt(name, pat, i);
      } else if i + 13 == |name| {
        assert file[i..i + |pat|][13] == file[i + 13] == '.';
      } else {
        assert file[i..i + |pat|][13] == file[i + 13] == ext[i + 13 - |name| - 1];
      }
    }
  }

  /** A resource whose name has no dot has no extension, so it gets no mark:
      the topic keeps only its title line. */
  lemma DotlessResourceHasNoMark(name: string)
    requires forall k :: 0 <= k < |name| ==> name[k] != '.'
    requires !Contains(name, "xap:resources/")
    ensures ImageToken(Some("xap:resources/" + name)) == None
  {
    ResourceSource(name);
    var e := MatchEnd(name);
    var n := AlnumRunBefore(name, e);
    if n > 0 && n < e {
      assert name[e - n - 1] != '.';
    }
  }

  /** Removing the `xap:resources/` prefix from a source leaves the file name. */
  lemma ResourceSource(file: string)
    requires !Contains(file, "xap:resources/")
    ensures var src := "xap:resources/" + file;
      src != "" && Contains(src, "resources/") && ReplaceAll(src, "xap:resources/", "") == file
  {
    var src := "xap:resources/" + file;
    assert src[4..4 + |"resources/"|] == "resources/";
    assert OccursAt(src, "resources/", 4);
    ReplaceAtStart("xap:resources/", file, "");
  }

  /** A line at `level` starts with the indentation of `level` and of every
      shallower level. */
  lemma IndentedAt(level: nat, rest: string, outer: nat)
    requires outer <= level
    ensures StartsWith(IndentLine(level, rest), Indent(outer))
  {
    assert IndentLine(level, rest)[..2 * outer] == Indent(outer);
  }

  lemma OwnLinesIndented(t: Topic, level: nat, outer: nat)
    requires outer <= level
    ensures forall k :: 0 <= k < |OwnLines(t, level)| ==> StartsWith(OwnLines(t, level)[k], Indent(outer))
  {
    TitleLinesIndented(t, level, outer);
    DetailLinesIndented(t, level, outer);
    LinesAppend(TitleLines(t, level), DetailLines(t, level), outer);
  }

  lemma TitleLinesIndented(t: Topic, level: nat, outer: nat)
    requires outer <= level
    ensures forall k :: 0 <= k < |TitleLines(t, level)| ==> StartsWith(TitleLines(t, level)[k], Indent(outer))
  {
    if HasTitle(t) {
      IndentedAt(level, "- " + Strip(t.title.value), outer);
      if ImageToken(t.imageSrc).Some? {
        IndentedAt(level, "  " + ImageToken(t.imageSrc).value, outer);
      }
    }
  }

  lemma DetailLinesIndented(t: Topic, level: nat, outer: nat)
    requires outer <= level
    ensures forall k :: 0 <= k < |DetailLines(t, level)| ==> StartsWith(DetailLines(t, level)[k], Indent(outer))
  {
    var note := if t.note.Some? && !IsBlank(t.note.value) then [IndentLine(level, "  注释: " + Strip(t.note.value))] else [];
    var labels := if |t.labels| > 0 then [IndentLine(level, "  标签: " + Join(t.labels, ", "))] else [];
    var link := if t.link.Some? && !IsBlank(t.link.value) then [IndentLine(level, "  链接: " + Strip(t.link.value))] else [];
    if t.note.Some? && !IsBlank(t.note.value) {
      IndentedAt(level, "  注释: " + Strip(t.note.value), outer);
    }
    if |t.labels| > 0 {
      IndentedAt(level, "  标签: " + Join(t.labels, ", "), outer);
    }
    if t.link.Some? && !IsBlank(t.link.value) {
      IndentedAt(level, "  链接: " + Strip(t.link.value), outer);
    }
    LinesAppend(note, labels, outer);
    LinesAppend(note + labels, link, outer);
  }

  /** Lines indented one level deeper are indented at this level too. */
  lemma IndentsNest(lines: seq<string>, level: nat)
    requires forall k :: 0 <= k < |lines| ==> StartsWith(lines[k], Indent(level + 1))
    ensures forall k :: 0 <= k < |lines| ==> StartsWith(lines[k], Indent(level))
  {
    forall k | 0 <= k < |lines|
      ensures StartsWith(lines[k], Indent(level))
    {
      assert lines[k][..2 * level] == Indent(level);
    }
  }

  lemma LinesAppend(a: seq<string>, b: seq<string>, outer: nat)
    requires forall k :: 0 <= k < |a| ==> StartsWith(a[k], Indent(outer))
    requires forall k :: 0 <= k < |b| ==> StartsWith(b[k], Indent(outer))
    ensures forall k :: 0 <= k < |a + b| ==> StartsWith((a + b)[k], Indent(outer))
  {
    forall k | 0 <= k < |a + b|
      ensures StartsWith((a + b)[k], Indent(outer))
    {
      if k < |a| {
        assert (a + b)[k] == a[k];
      } else {
        assert (a + b)[k] == b[k - |a|];
      }
    }
  }

  /** A topic visited by the walk, with its depth. */
  datatype Visit = Visit(topic: Topic, level: nat)

  /** Depth-first pre-order: a topic, then each subtree of its children in
      order, one level deeper. */
  function Preorder(t: Topic, level: nat): (vs: seq<Visit>)
    ensures |vs| >= 1 && vs[0] == Visit(t, level)
    ensures forall k :: 0 <= k < |vs| ==> vs[k].level >= level
    decreases t
  {
    [Visit(t, level)] + PreorderList(t.children, level + 1)
  }

  function PreorderList(ts: seq<Topic>, level: nat): (vs: seq<Visit>)
    ensures forall k :: 0 <= k < |vs| ==> vs[k].level >= level
    decreases ts
  {
    if |ts| == 0 then [] else Preorder(ts[0], level) + PreorderList(ts[1..], level)
  }

  /** The own lines of each visited topic, in visiting order. */
  function VisitLines(vs: seq<Visit>): seq<string>
    decreases |vs|
  {
    if |vs| == 0 then [] else OwnLines(vs[0].topic, vs[0].level) + VisitLines(vs[1..])
  }

  lemma {:induction false} VisitLinesAppend(a: seq<Visit>, b: seq<Visit>)
    ensures VisitLines(a + b) == VisitLines(a) + VisitLines(b)
    decreases |a|
  {
    if |a| == 0 {
      assert a + b == b;
    } else {
      var v := a[0];
      assert a + b == [v] + (a[1..] + b);
      assert a == [v] + a[1..];
      VisitLinesCons(v, a[1..] + b);
      VisitLinesCons(v, a[1..]);
      VisitLinesAppend(a[1..], b);
      LinesAssoc(OwnLines(v.topic, v.level), VisitLines(a[1..]), VisitLines(b));
    }
  }

  lemma VisitLinesCons(v: Visit, vs: seq<Visit>)
    ensures VisitLines([v] + vs) == OwnLines(v.topic, v.level) + VisitLines(vs)
  {
    assert ([v] + vs)[1..] == vs;
  }

  lemma LinesAssoc(x: seq<string>, y: seq<string>, z: seq<string>)
    ensures x + (y + z) == (x + y) + z
  {
  }

  /** The walk writes each topic's own lines in depth-first pre-order. */
  lemma {:induction false} WalkIsPreorder(t: Topic, level: nat)
    ensures Walk(t, level) == VisitLines(Preorder(t, level))
    decreases t
  {
    WalkListIsPreorder(t.children, level + 1);
    VisitLinesAppend([Visit(t, level)], PreorderList(t.children, level + 1));
    assert VisitLines([Visit(t, level)]) == OwnLines(t, level) + VisitLines([]);
  }

  lemma {:induction false} WalkListIsPreorder(ts: seq<Topic>, level: nat)
    ensures WalkList(ts, level) == VisitLines(PreorderList(ts, level))
    decreases ts
  {
    if |ts| > 0 {
      WalkIsPreorder(ts[0], level);
      WalkListIsPreorder(ts[1..], level);
      VisitLinesAppend(Preorder(ts[0], level), PreorderList(ts[1..], level));
    }
  }

  lemma JoinStartsWithFirst(xs: seq<string>, sep: string)
    requires |xs| > 0
    ensures StartsWith(Join(xs, sep), xs[0])
  {
    if |xs| > 1 {
      assert Join(xs, sep) == xs[0] + (sep + Join(xs[1..], sep));
    }
  }

  // ---------------------------------------------------------------------------
  // Swapping marks for placeholders

  /** `re.sub` with the replacement callback over a scan of the reader's text:
      while images last, the next mark becomes the placeholder of the next
      image; after that, marks are written back unchanged. `idx` is the
      callback's counter. */
  function Rewrite(segs: seq<Segment>, images: seq<string>, idx: nat): (r: string)
    ensures |images| <= idx ==> r == Render(TokenPattern, segs)
    decreases |segs|
  {
    if |segs| == 0 then ""
    else
      match segs[0]
      case Lit(c) => [c] + Rewrite(segs[1..], images, idx)
      case Hit(b) =>
        if idx < |images| then Placeholder(images[idx]) + Rewrite(segs[1..], images, idx + 1)
        else Token(b) + Rewrite(segs[1..], images, idx)
  }

  /** `convert_xmind_to_markdown_with_placeholders` on the reader's text:
      without images the text comes back unchanged. */
  function Convert(markdown: string, images: seq<string>): (r: string)
    ensures |images| == 0 ==> r == markdown
  {
    Rewrite(Parse(TokenPattern, markdown), images, 0)
  }

  /** `s` starts with a proper tail of `![placeholder](` only where `r` does. */
  ghost predicate NoNewOpenTail(s: string, r: string) {
    forall j :: 1 <= j < |Open| && StartsWith(s, Open[j..]) ==> StartsWith(r, Open[j..])
  }

  /** The rewrite starts with no tail of `![placeholder](` that the original
      text did not: a placeholder starts with `!`, which no proper tail holds,
      and a mark written back is longer than any tail. */
  lemma {:induction false} RewriteTails(segs: seq<Segment>, images: seq<string>, idx: nat)
    ensures NoNewOpenTail(Rewrite(segs, images, idx), Render(TokenPattern, segs))
    decreases |segs|
  {
    if |segs| > 0 {
      var s := Rewrite(segs, images, idx);
      var r := Render(TokenPattern, segs);
      OpenHasNoNewline();
      match segs[0]
      case Lit(c) =>
        RewriteTails(segs[1..], images, idx);
        TailStep(c, Rewrite(segs[1..], images, idx), Render(TokenPattern, segs[1..]));
      case Hit(b) =>
        if idx < |images| {
          forall j | 1 <= j < |Open|
            ensures !StartsWith(s, Open[j..])
          {
            assert s[0] == '!';
            assert Open[j..][0] == Open[j];
          }
        } else {
          var t := Token(b);
          assert s == t + Rewrite(segs[1..], images, idx);
          assert r == t + Render(TokenPattern, segs[1..]);
          forall j | 1 <= j < |Open| && StartsWith(s, Open[j..])
            ensures StartsWith(r, Open[j..])
          {
            assert s[..|Open| - j] == t[..|Open| - j] == r[..|Open| - j];
          }
        }
    }
  }

  lemma {:induction false} TailStep(c: char, s: string, r: string)
    requires NoNewOpenTail(s, r)
    ensures NoNewOpenTail([c] + s, [c] + r)
  {
    forall j | 1 <= j < |Open| && StartsWith([c] + s, Open[j..])
      ensures StartsWith([c] + r, Open[j..])
    {
      var n := |Open| - j;
      if j + 1 < |Open| {
        assert s[..n - 1] == ([c] + s)[1..n] == Open[j..][1..] == Open[j + 1..];
        assert r[..n - 1] == Open[j + 1..];
        assert ([c] + r)[..n] == [c] + r[..n - 1];
        assert Open[j..] == [Open[j]] + Open[j + 1..];
      } else {
        assert ([c] + r)[..n] == [c] == ([c] + s)[..n];
      }
    }
  }

  /** A clean text has no placeholder to find. */
  lemma {:induction false} CleanHasNoPlaceholders(r: string)
    requires Clean(r)
    ensures Bodies(Parse(PlaceholderPattern, r)) == []
  {
    assert r + "" == r;
    NoMatchInClean(r, "");
    NoMatchParse(PlaceholderPattern, r);
    BodiesOfLits(r);
  }

  /** Up to `n` images from index `i` on, as far as they go. */
  function Take(xs: seq<string>, i: nat, n: nat): seq<string>
    decreases n
  {
    if n == 0 || i >= |xs| then [] else [xs[i]] + Take(xs, i + 1, n - 1)
  }

  lemma {:induction false} TakeSlice(xs: seq<string>, i: nat, n: nat)
    requires i <= |xs|
    ensures Take(xs, i, n) == xs[i..i + Min(n, |xs| - i)]
    decreases n
  {
    if n > 0 && i < |xs| {
      TakeSlice(xs, i + 1, n - 1);
      assert xs[i..i + Min(n, |xs| - i)] == [xs[i]] + xs[i + 1..i + 1 + Min(n - 1, |xs| - i - 1)];
    }
  }

  /** The placeholders in the rewrite of a clean scan are the next images, one
      per mark, as far as the images go. */
  lemma {:induction false} RewriteScan(segs: seq<Segment>, images: seq<string>, idx: nat)
    requires Clean(Render(TokenPattern, segs)) && ValidPaths(images)
    ensures Bodies(Parse(PlaceholderPattern, Rewrite(segs, images, idx)))
      == Take(images, idx, |Bodies(segs)|)
    decreases |segs|
  {
    if idx >= |images| {
      CleanHasNoPlaceholders(Render(TokenPattern, segs));
    } else if |segs| > 0 {
      CleanRenderTail(TokenPattern, segs);
      if segs[0].Lit? {
        RewriteScan(segs[1..], images, idx);
        LitStep(segs, images, idx);
      } else {
        RewriteScan(segs[1..], images, idx + 1);
        assert ValidPath(images[idx]);
        HitStep(segs, images, idx);
      }
    }
  }

  /** The step of `RewriteScan` over a copied character. */
  lemma {:induction false} LitStep(segs: seq<Segment>, images: seq<string>, idx: nat)
    requires |segs| > 0 && segs[0].Lit? && Clean(Render(TokenPattern, segs))
    requires Bodies(Parse(PlaceholderPattern, Rewrite(segs[1..], images, idx)))
      == Take(images, idx, |Bodies(segs[1..])|)
    ensures Bodies(Parse(PlaceholderPattern, Rewrite(segs, images, idx)))
      == Take(images, idx, |Bodies(segs)|)
  {
    var c := segs[0].c;
    var s1 := Rewrite(segs[1..], images, idx);
    var r1 := Render(TokenPattern, segs[1..]);
    RewriteTails(segs[1..], images, idx);
    assert Render(TokenPattern, segs) == [c] + r1;
    assert Rewrite(segs, images, idx) == [c] + s1;
    assert Bodies(segs) == Bodies(segs[1..]);
    LitScan(c, s1, r1);
  }

  /** The step of `RewriteScan` over a mark while images remain. */
  lemma {:induction false} HitStep(segs: seq<Segment>, images: seq<string>, idx: nat)
    requires |segs| > 0 && segs[0].Hit? && idx < |images| && ValidPath(images[idx])
    requires Bodies(Parse(PlaceholderPattern, Rewrite(segs[1..], images, idx + 1)))
      == Take(images, idx + 1, |Bodies(segs[1..])|)
    ensures Bodies(Parse(PlaceholderPattern, Rewrite(segs, images, idx)))
      == Take(images, idx, |Bodies(segs)|)
  {
    RewriteOfHit(segs, images, idx);
    BodiesOfHit(segs);
    BodiesOfPlaceholderThen(images[idx], Rewrite(segs[1..], images, idx + 1));
  }

  lemma {:induction false} RewriteOfHit(segs: seq<Segment>, images: seq<string>, idx: nat)
    requires |segs| > 0 && segs[0].Hit? && idx < |images|
    ensures Rewrite(segs, images, idx) == Placeholder(images[idx]) + Rewrite(segs[1..], images, idx + 1)
  {
  }

  lemma {:induction false} BodiesOfHit(segs: seq<Segment>)
    requires |segs| > 0 && segs[0].Hit?
    ensures |Bodies(segs)| == 1 + |Bodies(segs[1..])|
  {
  }

  /** A character the scan copied does not start a placeholder in the rewrite. */
  lemma {:induction false} LitScan(c: char, s1: string, r1: string)
    requires Clean([c] + r1) && NoNewOpenTail(s1, r1)
    ensures Bodies(Parse(PlaceholderPattern, [c] + s1)) == Bodies(Parse(PlaceholderPattern, s1))
  {
    LitNoOpen(c, s1, r1);
    BodiesAfterNonOpen(c, s1);
  }

  lemma {:induction false} LitNoOpen(c: char, s1: string, r1: string)
    requires Clean([c] + r1) && NoNewOpenTail(s1, r1)
    ensures !StartsWith([c] + s1, Open)
  {
    OpenHasNoNewline();
    var s := [c] + s1;
    if c == '!' {
      assert !OccursAt([c] + r1, Open, 0);
      if |Open| - 1 <= |r1| {
        assert ([c] + r1)[..|Open|] == [c] + r1[..|Open| - 1];
        assert Open == [c] + Open[1..];
      }
      assert !StartsWith(r1, Open[1..]);
      assert !StartsWith(s1, Open[1..]);
      if |Open| <= |s| {
        assert s[..|Open|] == [c] + s1[..|Open| - 1];
      }
    }
  }

  /** When the reader's text holds no `![placeholder](`, the placeholders of
      the converted text are the images, in order, one per mark, as far as
      both go; marks beyond the images stay. */
  lemma ConvertPlaceholders(markdown: string, images: seq<string>)
    requires Clean(markdown) && ValidPaths(images)
    ensures Bodies(Parse(PlaceholderPattern, Convert(markdown, images)))
      == images[..Min(|Bodies(Parse(TokenPattern, markdown))|, |images|)]
  {
    var marks := |Bodies(Parse(TokenPattern, markdown))|;
    RewriteScan(Parse(TokenPattern, markdown), images, 0);
    TakeSlice(images, 0, marks);
    assert images[0..Min(marks, |images|)] == images[..Min(marks, |images|)];
  }
}
