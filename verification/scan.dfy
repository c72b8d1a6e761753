/** A left-to-right, non-overlapping scan for text of the shape
    `open`, one or more characters of a class, `close` — the shape of both regular
    expressions the pipeline hands to `re.sub`:
      `!\[placeholder\]\(([^)]+)\)` and `\[\[IMAGE_PLACEHOLDER_([a-fA-F0-9]+)\]\]`.
    Where no match starts, `re.sub` copies one character and moves on; after a
    match it resumes right behind it, so replacement text is never rescanned. */
module Scan {
  import opened Wrappers
  import opened Text

  /** The two character classes of the patterns: `[^)]` and `[a-fA-F0-9]`. */
  datatype CharClass = NotCloseParen | HexDigit

  predicate InClass(k: CharClass, c: char) {
    match k
    case NotCloseParen => c != ')'
    case HexDigit => '0' <= c <= '9' || 'a' <= c <= 'f' || 'A' <= c <= 'F'
  }

  datatype Pattern = Pattern(open: string, body: CharClass, close: string)

  /** The close cannot begin inside the body run, so a greedy body never needs to
      give characters back: a match exists exactly when the maximal run is
      non-empty and the close follows it. Both patterns of the pipeline qualify. */
  predicate WellFormed(p: Pattern) {
    |p.open| > 0 && |p.close| > 0 && !InClass(p.body, p.close[0])
  }

  predicate ValidBody(p: Pattern, b: string) {
    |b| > 0 && forall k :: 0 <= k < |b| ==> InClass(p.body, b[k])
  }

  /** The matched text for a given body (the group). */
  function Occurrence(p: Pattern, b: string): string {
    p.open + b + p.close
  }

  /** Length of the maximal run of class characters at the start of `s`. */
  function RunLength(k: CharClass, s: string): (n: nat)
    ensures n <= |s|
    ensures forall i :: 0 <= i < n ==> InClass(k, s[i])
    ensures n < |s| ==> !InClass(k, s[n])
    decreases |s|
  {
    if |s| == 0 || !InClass(k, s[0]) then 0 else 1 + RunLength(k, s[1..])
  }

  /** The match of `p` anchored at the start of `s`, given by its group. */
  function MatchAt(p: Pattern, s: string): (r: Option<string>)
    ensures r.Some? ==> ValidBody(p, r.value) && StartsWith(s, Occurrence(p, r.value))
  {
    if StartsWith(s, p.open) then
      var t := s[|p.open|..];
      var n := RunLength(p.body, t);
      if n > 0 && StartsWith(t[n..], p.close) then
        assert s[..|Occurrence(p, t[..n])|] == p.open + t[..n] + t[n..][..|p.close|];
        Some(t[..n])
      else None
    else None
  }

  /** Every occurrence with a valid body is found by `MatchAt`, with that body. */
  lemma MatchOfOccurrence(p: Pattern, b: string, rest: string)
    requires WellFormed(p) && ValidBody(p, b)
    ensures MatchAt(p, Occurrence(p, b) + rest) == Some(b)
  {
    var s := Occurrence(p, b) + rest;
    assert s[..|p.open|] == p.open;
    var t := s[|p.open|..];
    assert t == b + p.close + rest;
    RunLengthOf(p, b, p.close + rest);
    assert t[|b|..] == p.close + rest;
    assert t[..|b|] == b;
  }

  lemma {:induction false} RunLengthOf(p: Pattern, b: string, rest: string)
    requires ValidBody(p, b) && |rest| > 0 && !InClass(p.body, rest[0])
    ensures RunLength(p.body, b + rest) == |b|
    decreases |b|
  {
    if |b| > 1 {
      assert (b + rest)[1..] == b[1..] + rest;
      RunLengthOf(p, b[1..], rest);
    } else {
      assert (b + rest)[1..] == rest;
    }
  }

  /** A match can only start where the open's first character is. */
  lemma NoMatchWithoutOpen(p: Pattern, s: string)
    requires |p.open| > 0 && (|s| == 0 || s[0] != p.open[0])
    ensures MatchAt(p, s) == None
  {
  }

  /** One step of the scan: a copied character or a matched occurrence. */
  datatype Segment = Lit(c: char) | Hit(body: string)

  function Piece(p: Pattern, seg: Segment): string {
    match seg
    case Lit(c) => [c]
    case Hit(b) => Occurrence(p, b)
  }

  /** The text a scan came from. */
  function Render(p: Pattern, segs: seq<Segment>): string
    decreases |segs|
  {
    if |segs| == 0 then "" else Piece(p, segs[0]) + Render(p, segs[1..])
  }

  /** The groups of the matches, in scan order. */
  function Bodies(segs: seq<Segment>): seq<string>
    decreases |segs|
  {
    if |segs| == 0 then []
    else if segs[0].Hit? then [segs[0].body] + Bodies(segs[1..])
    else Bodies(segs[1..])
  }

  /** Every character of `s` copied, none matched. */
  function Lits(s: string): (segs: seq<Segment>)
    ensures |segs| == |s|
    ensures forall k :: 0 <= k < |s| ==> segs[k] == Lit(s[k])
  {
    seq(|s|, k requires 0 <= k < |s| => Lit(s[k]))
  }

  /** What a scan produces: a character is copied only where no match starts,
      and every match has a valid group. */
  predicate Scanned(p: Pattern, segs: seq<Segment>)
    decreases |segs|
  {
    if |segs| == 0 then true
    else
      && (match segs[0]
          case Lit(c) => MatchAt(p, Render(p, segs)).None?
          case Hit(b) => ValidBody(p, b))
      && Scanned(p, segs[1..])
  }

  /** The `re.sub` scan of `s`: it covers `s` exactly, in order, and is a scan. */
  function Parse(p: Pattern, s: string): (segs: seq<Segment>)
    ensures Render(p, segs) == s
    ensures Scanned(p, segs)
    decreases |s|
  {
    if |s| == 0 then []
    else
      match MatchAt(p, s)
      case Some(b) =>
        var rest := Parse(p, s[|Occurrence(p, b)|..]);
        ScanHit(p, s, b, rest);
        [Hit(b)] + rest
      case None =>
        var rest := Parse(p, s[1..]);
        ScanLit(p, s, rest);
        [Lit(s[0])] + rest
  }

  /** A match in front of a scan of what follows it makes a scan. */
  lemma ScanHit(p: Pattern, s: string, b: string, rest: seq<Segment>)
    requires MatchAt(p, s) == Some(b)
    requires Render(p, rest) == s[|Occurrence(p, b)|..] && Scanned(p, rest)
    ensures Render(p, [Hit(b)] + rest) == s && Scanned(p, [Hit(b)] + rest)
  {
    var segs := [Hit(b)] + rest;
    assert segs[1..] == rest;
    var n := |Occurrence(p, b)|;
    assert s == s[..n] + s[n..];
  }

  /** A character where nothing matches, in front of a scan of the remainder,
      makes a scan. */
  lemma ScanLit(p: Pattern, s: string, rest: seq<Segment>)
    requires |s| > 0 && MatchAt(p, s).None?
    requires Render(p, rest) == s[1..] && Scanned(p, rest)
    ensures Render(p, [Lit(s[0])] + rest) == s && Scanned(p, [Lit(s[0])] + rest)
  {
    var segs := [Lit(s[0])] + rest;
    assert segs[1..] == rest;
    assert s == [s[0]] + s[1..];
  }

  /** The scan's step where nothing matches. */
  lemma ParseOfLit(p: Pattern, s: string)
    requires |s| > 0 && MatchAt(p, s).None?
    ensures Parse(p, s) == [Lit(s[0])] + Parse(p, s[1..])
  {
  }

  /** The scan's step at a match. */
  lemma ParseOfHit(p: Pattern, s: string, b: string)
    requires MatchAt(p, s) == Some(b)
    ensures Parse(p, s) == [Hit(b)] + Parse(p, s[|Occurrence(p, b)|..])
  {
  }

  /** A text has exactly one scan: any scan that renders to `s` is `Parse(s)`. */
  lemma {:induction false} ParseOfScanned(p: Pattern, segs: seq<Segment>)
    requires WellFormed(p) && Scanned(p, segs)
    ensures Parse(p, Render(p, segs)) == segs
    decreases |segs|
  {
    if |segs| > 0 {
      ParseOfScanned(p, segs[1..]);
      if segs[0].Lit? {
        ScannedLit(p, segs);
      } else {
        ScannedHit(p, segs);
      }
    }
  }

  lemma {:induction false} ScannedLit(p: Pattern, segs: seq<Segment>)
    requires |segs| > 0 && segs[0].Lit? && MatchAt(p, Render(p, segs)).None?
    requires Parse(p, Render(p, segs[1..])) == segs[1..]
    ensures Parse(p, Render(p, segs)) == segs
  {
    var s := Render(p, segs);
    var tail := Render(p, segs[1..]);
    assert s == [segs[0].c] + tail;
    assert s[0] == segs[0].c && s[1..] == tail;
    ParseOfLit(p, s);
    assert segs == [segs[0]] + segs[1..];
  }

  lemma {:induction false} ScannedHit(p: Pattern, segs: seq<Segment>)
    requires WellFormed(p) && |segs| > 0 && segs[0].Hit? && ValidBody(p, segs[0].body)
    requires Parse(p, Render(p, segs[1..])) == segs[1..]
    ensures Parse(p, Render(p, segs)) == segs
  {
    var b := segs[0].body;
    var s := Render(p, segs);
    var tail := Render(p, segs[1..]);
    assert s == Occurrence(p, b) + tail;
    MatchOfOccurrence(p, b, tail);
    assert s[|Occurrence(p, b)|..] == tail;
    ParseOfHit(p, s, b);
    assert segs == [segs[0]] + segs[1..];
  }

  lemma {:induction false} BodiesAppend(a: seq<Segment>, b: seq<Segment>)
    ensures Bodies(a + b) == Bodies(a) + Bodies(b)
    decreases |a|
  {
    if |a| > 0 {
      assert (a + b)[1..] == a[1..] + b;
      BodiesAppend(a[1..], b);
    } else {
      assert a + b == b;
    }
  }

  lemma {:induction false} BodiesOfLits(s: string)
    ensures Bodies(Lits(s)) == []
    decreases |s|
  {
    if |s| > 0 {
      assert Lits(s)[1..] == Lits(s[1..]);
      BodiesOfLits(s[1..]);
    }
  }

  /** Where no match starts inside `a`, the scan of `a + b` copies `a` and then
      scans `b` on its own. */
  lemma {:induction false} ParseLiteralPrefix(p: Pattern, a: string, b: string)
    requires forall i :: 0 <= i < |a| ==> MatchAt(p, (a + b)[i..]).None?
    ensures Parse(p, a + b) == Lits(a) + Parse(p, b)
    decreases |a|
  {
    if |a| == 0 {
      assert a + b == b;
    } else {
      assert (a + b)[0..] == a + b;
      LiteralStep(p, a, b);
      NoMatchInTail(p, a, b);
      ParseLiteralPrefix(p, a[1..], b);
      LitsCons(a);
      ConsAssoc(Lit(a[0]), Lits(a[1..]), Parse(p, b));
    }
  }

  lemma LitsCons(a: string)
    requires |a| > 0
    ensures Lits(a) == [Lit(a[0])] + Lits(a[1..])
  {
    assert Lits(a)[1..] == Lits(a[1..]);
  }

  lemma ConsAssoc(x: Segment, l: seq<Segment>, r: seq<Segment>)
    ensures [x] + (l + r) == ([x] + l) + r
  {
  }

  lemma {:induction false} LiteralStep(p: Pattern, a: string, b: string)
    requires |a| > 0 && MatchAt(p, a + b).None?
    ensures Parse(p, a + b) == [Lit(a[0])] + Parse(p, a[1..] + b)
  {
    ParseOfLit(p, a + b);
    assert (a + b)[1..] == a[1..] + b;
  }

  lemma {:induction false} NoMatchInTail(p: Pattern, a: string, b: string)
    requires |a| > 0
    requires forall i :: 0 <= i < |a| ==> MatchAt(p, (a + b)[i..]).None?
    ensures forall i :: 0 <= i < |a[1..]| ==> MatchAt(p, (a[1..] + b)[i..]).None?
  {
    forall i | 0 <= i < |a[1..]|
      ensures MatchAt(p, (a[1..] + b)[i..]).None?
    {
      assert (a[1..] + b)[i..] == (a + b)[i + 1..];
    }
  }

  /** A leading occurrence with a valid group is matched as a whole. */
  lemma ParseOccurrencePrefix(p: Pattern, b: string, rest: string)
    requires WellFormed(p) && ValidBody(p, b)
    ensures Parse(p, Occurrence(p, b) + rest) == [Hit(b)] + Parse(p, rest)
  {
    MatchOfOccurrence(p, b, rest);
    assert (Occurrence(p, b) + rest)[|Occurrence(p, b)|..] == rest;
    ParseOfHit(p, Occurrence(p, b) + rest, b);
  }

  /** Text in which no match starts scans to plain copies of its characters. */
  lemma NoMatchParse(p: Pattern, s: string)
    requires forall i :: 0 <= i < |s| ==> MatchAt(p, s[i..]).None?
    ensures Parse(p, s) == Lits(s)
  {
    assert s + "" == s;
    ParseLiteralPrefix(p, s, "");
  }

  /** No match starts at a character that cannot begin the open. */
  lemma NoMatchInsideWithoutOpenChar(p: Pattern, a: string, b: string)
    requires |p.open| > 0
    requires forall i :: 0 <= i < |a| ==> a[i] != p.open[0]
    ensures forall i :: 0 <= i < |a| ==> MatchAt(p, (a + b)[i..]).None?
  {
    forall i | 0 <= i < |a|
      ensures MatchAt(p, (a + b)[i..]).None?
    {
      NoMatchWithoutOpen(p, (a + b)[i..]);
    }
  }

  /** Characters none of which can begin the open are copied. */
  lemma ParseWithoutOpenChar(p: Pattern, a: string, b: string)
    requires |p.open| > 0
    requires forall i :: 0 <= i < |a| ==> a[i] != p.open[0]
    ensures Parse(p, a + b) == Lits(a) + Parse(p, b)
  {
    NoMatchInsideWithoutOpenChar(p, a, b);
    ParseLiteralPrefix(p, a, b);
  }
}
