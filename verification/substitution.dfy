/** `replace_placeholders`: every `![placeholder](<path>)` of the composed Markdown
    becomes a block holding the description of `<path>`, or a block saying that
    no description was found. */
module Substitution {
  import opened Wrappers
  import opened Text
  import opened Scan

  const Open := "![placeholder]("

  /** `!\[placeholder\]\(([^)]+)\)` */
  const PlaceholderPattern := Pattern(Open, NotCloseParen, ")")

  /** The token the composers insert for one image. */
  function Placeholder(path: string): string {
    Occurrence(PlaceholderPattern, path)
  }

  /** A path the pattern captures whole: non-empty and without `)`. */
  predicate ValidPath(path: string) {
    ValidBody(PlaceholderPattern, path)
  }

  /** Sixteen `=`. */
  const Rule := "================"

  const FoundHead := "\n" + Rule + "\n**图片描述:**\n"
  const BlockTail := "\n" + Rule + "\n"

  function FoundBlock(description: string): string {
    FoundHead + description + BlockTail
  }

  function MissingBlock(path: string): string {
    "\n" + Rule + "\n[未找到图片 " + path + " 的描述]" + BlockTail
  }

  /** What one matched placeholder becomes. */
  function Resolve(path: string, descriptions: map<string, string>): string {
    if path in descriptions then FoundBlock(descriptions[path]) else MissingBlock(path)
  }

  /** Copied characters stay, matches become their blocks. */
  function Expand(segs: seq<Segment>, descriptions: map<string, string>): string
    decreases |segs|
  {
    if |segs| == 0 then ""
    else
      (match segs[0]
       case Lit(c) => [c]
       case Hit(path) => Resolve(path, descriptions))
      + Expand(segs[1..], descriptions)
  }

  /** No match of the placeholder pattern starts anywhere in `s`. */
  predicate NoPlaceholder(s: string) {
    forall i :: 0 <= i < |s| ==> MatchAt(PlaceholderPattern, s[i..]).None?
  }

  /** `replace_placeholders(markdown_text, image_descriptions)`. */
  function ReplacePlaceholders(markdown: string, descriptions: map<string, string>): (r: string)
    ensures NoPlaceholder(markdown) ==> r == markdown
  {
    var segs := Parse(PlaceholderPattern, markdown);
    assert NoPlaceholder(markdown) ==> Expand(segs, descriptions) == markdown by {
      if NoPlaceholder(markdown) {
        NoMatchParse(PlaceholderPattern, markdown);
        ExpandLits(markdown, descriptions);
      }
    }
    Expand(segs, descriptions)
  }

  lemma {:induction false} ExpandAppend(a: seq<Segment>, b: seq<Segment>, descriptions: map<string, string>)
    ensures Expand(a + b, descriptions) == Expand(a, descriptions) + Expand(b, descriptions)
    decreases |a|
  {
    if |a| == 0 {
      assert a + b == b;
    } else {
      assert (a + b)[1..] == a[1..] + b;
      ExpandAppend(a[1..], b, descriptions);
    }
  }

  lemma {:induction false} ExpandLits(s: string, descriptions: map<string, string>)
    ensures Expand(Lits(s), descriptions) == s
    decreases |s|
  {
    if |s| > 0 {
      assert Lits(s)[1..] == Lits(s[1..]);
      ExpandLits(s[1..], descriptions);
      assert s == [s[0]] + s[1..];
    }
  }

  /** Substitution works segment by segment over the unique scan of its input:
      any text written as copied characters and valid placeholders comes out as
      the same characters and the placeholders' blocks. */
  lemma ReplaceScanned(segs: seq<Segment>, descriptions: map<string, string>)
    requires Scanned(PlaceholderPattern, segs)
    ensures ReplacePlaceholders(Render(PlaceholderPattern, segs), descriptions) == Expand(segs, descriptions)
  {
    ParseOfScanned(PlaceholderPattern, segs);
  }

  /** The first placeholder of a text: what precedes it is copied verbatim, it
      becomes its block, and the scan resumes behind it in the original text. */
  lemma ReplaceFirst(before: string, path: string, after: string, descriptions: map<string, string>)
    requires ValidPath(path)
    requires forall i :: 0 <= i < |before| ==>
      MatchAt(PlaceholderPattern, (before + Placeholder(path) + after)[i..]).None?
    ensures ReplacePlaceholders(before + Placeholder(path) + after, descriptions)
      == before + Resolve(path, descriptions) + ReplacePlaceholders(after, descriptions)
  {
    ParseFirst(before, path, after);
    ExpandFirst(before, path, Parse(PlaceholderPattern, after), descriptions);
  }

  lemma ParseFirst(before: string, path: string, after: string)
    requires ValidPath(path)
    requires forall i :: 0 <= i < |before| ==>
      MatchAt(PlaceholderPattern, (before + Placeholder(path) + after)[i..]).None?
    ensures Parse(PlaceholderPattern, before + Placeholder(path) + after)
      == Lits(before) + ([Hit(path)] + Parse(PlaceholderPattern, after))
  {
    var p := PlaceholderPattern;
    assert before + Placeholder(path) + after == before + (Placeholder(path) + after);
    ParseLiteralPrefix(p, before, Placeholder(path) + after);
    ParseOccurrencePrefix(p, path, after);
  }

  lemma ExpandFirst(before: string, path: string, segs: seq<Segment>, descriptions: map<string, string>)
    ensures Expand(Lits(before) + ([Hit(path)] + segs), descriptions)
      == before + Resolve(path, descriptions) + Expand(segs, descriptions)
  {
    var tail := [Hit(path)] + segs;
    ExpandAppend(Lits(before), tail, descriptions);
    ExpandLits(before, descriptions);
    assert tail[1..] == segs;
  }

  /** `![placeholder]()` is not a match: the path needs at least one character. */
  lemma EmptyPathIsKept(descriptions: map<string, string>)
    ensures MatchAt(PlaceholderPattern, "![placeholder]()") == None
    ensures ReplacePlaceholders("![placeholder]()", descriptions) == "![placeholder]()"
  {
    var s := "![placeholder]()";
    forall i | 0 <= i < |s|
      ensures MatchAt(PlaceholderPattern, s[i..]).None?
    {
      if i > 0 {
        NoMatchWithoutOpen(PlaceholderPattern, s[i..]);
      } else {
        assert s[..|Open|] == Open;
        assert s[|Open|..] == ")";
      }
    }
  }

  /** A path with a map entry becomes exactly the description block. */
  lemma ReplaceLonePlaceholder(path: string, description: string)
    requires ValidPath(path)
    ensures ReplacePlaceholders(Placeholder(path), map[path := description]) == FoundBlock(description)
  {
    var m := map[path := description];
    var s := Placeholder(path);
    assert "" + s + "" == s;
    ReplaceFirst("", path, "", m);
    assert ReplacePlaceholders("", m) == "";
    assert Resolve(path, m) == FoundBlock(description);
  }

  lemma MatchBehind(head: string, path: string, tail: string)
    requires ValidPath(path)
    ensures MatchAt(PlaceholderPattern, (head + Placeholder(path) + tail)[|head|..]) == Some(path)
  {
    assert (head + Placeholder(path) + tail)[|head|..] == Placeholder(path) + tail;
    MatchOfOccurrence(PlaceholderPattern, path, tail);
  }

  /** Replacement text is never rescanned: a description that itself holds
      placeholder syntax leaves a match in the result. */
  lemma DescriptionsAreNotRescanned(path: string, inner: string)
    requires ValidPath(path) && ValidPath(inner)
    ensures ReplacePlaceholders(Placeholder(path), map[path := Placeholder(inner)])
      == FoundBlock(Placeholder(inner))
    ensures MatchAt(PlaceholderPattern, FoundBlock(Placeholder(inner))[|FoundHead|..]) == Some(inner)
  {
    ReplaceLonePlaceholder(path, Placeholder(inner));
    MatchBehind(FoundHead, inner, BlockTail);
  }

  /** Text without `!` holds no placeholder and is returned unchanged. */
  lemma ReplaceWithoutBang(s: string, descriptions: map<string, string>)
    requires forall i :: 0 <= i < |s| ==> s[i] != '!'
    ensures ReplacePlaceholders(s, descriptions) == s
  {
    NoMatchInsideWithoutOpenChar(PlaceholderPattern, s, "");
    assert s + "" == s;
    assert NoPlaceholder(s);
  }

  lemma ReplaceAfterPlainText(before: string, path: string, after: string, descriptions: map<string, string>)
    requires ValidPath(path)
    requires forall i :: 0 <= i < |before| ==> before[i] != '!'
    ensures ReplacePlaceholders(before + Placeholder(path) + after, descriptions)
      == before + Resolve(path, descriptions) + ReplacePlaceholders(after, descriptions)
  {
    var s := before + Placeholder(path) + after;
    assert before + (Placeholder(path) + after) == s;
    NoMatchInsideWithoutOpenChar(PlaceholderPattern, before, Placeholder(path) + after);
    assert forall i :: 0 <= i < |before| ==> MatchAt(PlaceholderPattern, s[i..]).None?;
    ReplaceFirst(before, path, after, descriptions);
  }

  /** One placeholder between two pieces of text without `!`. */
  lemma ReplaceBetweenPlainText(before: string, path: string, after: string, descriptions: map<string, string>)
    requires ValidPath(path)
    requires forall i :: 0 <= i < |before| ==> before[i] != '!'
    requires forall i :: 0 <= i < |after| ==> after[i] != '!'
    ensures ReplacePlaceholders(before + Placeholder(path) + after, descriptions)
      == before + Resolve(path, descriptions) + after
  {
    ReplaceAfterPlainText(before, path, after, descriptions);
    ReplaceWithoutBang(after, descriptions);
  }

  /** A map entry for the path: the description block between the lines. */
  lemma ScenarioDescribed()
    ensures ReplacePlaceholders("intro\n" + Placeholder("img1.png") + "\noutro", map["img1.png" := "a red circle"])
      == "intro\n" + FoundBlock("a red circle") + "\noutro"
  {
    ReplaceBetweenPlainText("intro\n", "img1.png", "\noutro", map["img1.png" := "a red circle"]);
  }

  /** No map entry for the path: the not-found block naming it. */
  lemma ScenarioMissing()
    ensures ReplacePlaceholders("intro\n" + Placeholder("img1.png") + "\noutro", map[])
      == "intro\n" + MissingBlock("img1.png") + "\noutro"
  {
    ReplaceBetweenPlainText("intro\n", "img1.png", "\noutro", map[]);
  }

  // ---------------------------------------------------------------------------
  // Text the scan cannot mistake for placeholders

  /** The text holds no `![placeholder](`. */
  ghost predicate Clean(s: string) {
    forall i :: 0 <= i <= |s| ==> !OccursAt(s, Open, i)
  }

  lemma OpenHasNoNewline()
    ensures |Open| > 0 && Open[0] == '!'
    ensures forall j :: 0 <= j < |Open| ==> Open[j] != '\n'
    ensures forall j :: 1 <= j < |Open| ==> Open[j] != '!'
  {
  }

  /** Text without `!`, which every placeholder starts with. */
  predicate BangFree(s: string) {
    forall i :: 0 <= i < |s| ==> s[i] != '!'
  }

  lemma BangFreeAppend(a: string, b: string)
    requires BangFree(a) && BangFree(b)
    ensures BangFree(a + b)
  {
  }

  lemma BangFreeDigits(n: nat)
    ensures BangFree(NatToString(n))
  {
  }

  lemma CleanWithoutBang(s: string)
    requires BangFree(s)
    ensures Clean(s)
  {
    OpenHasNoNewline();
    forall i | 0 <= i <= |s| && i + |Open| <= |s|
      ensures !OccursAt(s, Open, i)
    {
      assert s[i..i + |Open|][0] != Open[0];
    }
  }

  /** Prefixing text without `!` keeps a text clean. */
  lemma CleanAfterBangFree(a: string, b: string)
    requires BangFree(a)
    requires Clean(b)
    ensures Clean(a + b)
  {
    OpenHasNoNewline();
    var s := a + b;
    forall i | 0 <= i <= |s| && i + |Open| <= |s|
      ensures !OccursAt(s, Open, i)
    {
      if i < |a| {
        assert s[i..i + |Open|][0] != Open[0];
      } else {
        assert s[i..i + |Open|] == b[i - |a|..i - |a| + |Open|];
        assert !OccursAt(b, Open, i - |a|);
      }
    }
  }

  /** Where `![placeholder](` would cover position `|a|` of `a + b` and `b`
      starts with a newline, it does not occur. */
  lemma NoOpenAcrossNewline(a: string, b: string, i: nat)
    requires |b| > 0 && b[0] == '\n'
    requires i < |a| < i + |Open| <= |a + b|
    ensures (a + b)[i..i + |Open|] != Open
  {
    OpenHasNoNewline();
    assert (a + b)[i..i + |Open|][|a| - i] == '\n';
  }

  /** A clean text followed by a clean text that starts with a newline is clean:
      `![placeholder](` holds no newline, so no occurrence spans the seam. */
  lemma CleanBeforeNewline(a: string, b: string)
    requires Clean(a) && Clean(b) && |b| > 0 && b[0] == '\n'
    ensures Clean(a + b)
  {
    var s := a + b;
    forall i | 0 <= i <= |s| && i + |Open| <= |s|
      ensures !OccursAt(s, Open, i)
    {
      if i + |Open| <= |a| {
        assert s[i..i + |Open|] == a[i..i + |Open|];
        assert !OccursAt(a, Open, i);
      } else if i < |a| {
        NoOpenAcrossNewline(a, b, i);
      } else {
        assert s[i..i + |Open|] == b[i - |a|..i - |a| + |Open|];
        assert !OccursAt(b, Open, i - |a|);
      }
    }
  }

  lemma CleanWithNewline(text: string)
    requires Clean(text)
    ensures Clean(text + "\n")
  {
    CleanWithoutBang("\n");
    CleanBeforeNewline(text, "\n");
  }

  /** A piece of a clean text is clean. */
  lemma CleanSlice(s: string, i: nat, j: nat)
    requires i <= j <= |s| && Clean(s)
    ensures Clean(s[i..j])
  {
    var t := s[i..j];
    forall k | 0 <= k <= |t| && k + |Open| <= |t|
      ensures !OccursAt(t, Open, k)
    {
      SliceOfSlice(s, i, j, k, k + |Open|);
      assert !OccursAt(s, Open, i + k);
    }
  }

  lemma SliceOfSlice(s: string, i: nat, j: nat, k: nat, l: nat)
    requires i <= j <= |s| && k <= l <= j - i
    ensures s[i..j][k..l] == s[i + k..i + l]
  {
    forall m | 0 <= m < l - k
      ensures s[i..j][k..l][m] == s[i + k..i + l][m]
    {
      assert s[i..j][k..l][m] == s[i + k + m];
    }
  }

  lemma CleanStrip(s: string)
    requires Clean(s)
    ensures Clean(Strip(s))
  {
    var r := Strip(s);
    var i :| StrippedAt(s, r, i);
    CleanSlice(s, i, i + |r|);
  }

  /** In a clean text followed by nothing or by a newline, no match starts. */
  lemma NoMatchInClean(a: string, b: string)
    requires Clean(a) && (|b| == 0 || b[0] == '\n')
    ensures forall i :: 0 <= i < |a| ==> MatchAt(PlaceholderPattern, (a + b)[i..]).None?
  {
    var s := a + b;
    forall i | 0 <= i < |a|
      ensures !StartsWith(s[i..], Open)
    {
      if i + |Open| <= |a| {
        assert s[i..][..|Open|] == a[i..i + |Open|];
        assert !OccursAt(a, Open, i);
      } else if i + |Open| <= |s| {
        NoOpenAcrossNewline(a, b, i);
        assert s[i..][..|Open|] == s[i..i + |Open|];
      }
    }
  }

  /** What follows the first segment of a clean scanned text is clean. */
  lemma CleanRenderTail(p: Pattern, segs: seq<Segment>)
    requires |segs| > 0 && Clean(Render(p, segs))
    ensures Clean(Render(p, segs[1..]))
  {
    var r := Render(p, segs);
    var r1 := Render(p, segs[1..]);
    assert r == Piece(p, segs[0]) + r1;
    CleanSlice(r, |r| - |r1|, |r|);
    assert r[|r| - |r1|..|r|] == r1;
  }

  lemma BodiesOfPlaceholderThen(path: string, rest: string)
    requires ValidPath(path)
    ensures Bodies(Parse(PlaceholderPattern, Placeholder(path) + rest))
      == [path] + Bodies(Parse(PlaceholderPattern, rest))
  {
    ParseOccurrencePrefix(PlaceholderPattern, path, rest);
    BodiesAppend([Hit(path)], Parse(PlaceholderPattern, rest));
  }

  /** A character that does not start `![placeholder](` is copied by the scan. */
  lemma BodiesAfterNonOpen(c: char, rest: string)
    requires !StartsWith([c] + rest, Open)
    ensures Bodies(Parse(PlaceholderPattern, [c] + rest)) == Bodies(Parse(PlaceholderPattern, rest))
  {
    assert ([c] + rest)[0..] == [c] + rest;
    ParseLiteralPrefix(PlaceholderPattern, [c], rest);
    BodiesAppend(Lits([c]), Parse(PlaceholderPattern, rest));
    BodiesOfLits([c]);
  }

  ghost predicate ValidPaths(images: seq<string>) {
    forall k :: 0 <= k < |images| ==> ValidPath(images[k])
  }
}
