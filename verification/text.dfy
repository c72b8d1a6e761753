/** The Python string primitives the pipeline relies on: `sep.join`, `str.split`
    on one character, `str.strip`, `str.replace`, `c * n`, `str.lower` on ASCII
    letters, `str(n)` for naturals and `int(s)` for base-10 text. */
module Text {
  import opened Wrappers

  function Min(a: int, b: int): int {
    if a <= b then a else b
  }

  predicate StartsWith(s: string, prefix: string) {
    |prefix| <= |s| && s[..|prefix|] == prefix
  }

  predicate EndsWith(s: string, suffix: string) {
    |suffix| <= |s| && s[|s| - |suffix|..] == suffix
  }

  /** `needle` occurs in `s` starting at index `i`. */
  predicate OccursAt(s: string, needle: string, i: int) {
    0 <= i && i + |needle| <= |s| && s[i..i + |needle|] == needle
  }

  /** Python's `needle in s`. */
  predicate Contains(s: string, needle: string) {
    exists i :: 0 <= i <= |s| - |needle| && OccursAt(s, needle, i)
  }

  /** `sep.join(xs)`. */
  function Join(xs: seq<string>, sep: string): (r: string)
    ensures |xs| == 1 ==> r == xs[0]
    ensures |xs| == 0 ==> r == ""
    decreases |xs|
  {
    if |xs| == 0 then ""
    else if |xs| == 1 then xs[0]
    else xs[0] + sep + Join(xs[1..], sep)
  }

  lemma JoinCons(x: string, xs: seq<string>, sep: string)
    requires |xs| >= 1
    ensures Join([x] + xs, sep) == x + sep + Join(xs, sep)
  {
    assert ([x] + xs)[1..] == xs;
  }

  /** A character in neither the pieces nor the separator is not in the join. */
  lemma {:induction false} JoinWithout(xs: seq<string>, sep: string, c: char)
    requires c !in sep && forall k :: 0 <= k < |xs| ==> c !in xs[k]
    ensures c !in Join(xs, sep)
    decreases |xs|
  {
    if |xs| > 1 {
      JoinWithout(xs[1..], sep, c);
      JoinCons(xs[0], xs[1..], sep);
      assert [xs[0]] + xs[1..] == xs;
    }
  }

  /** `s.split(d)` for a one-character separator: the pieces between separators,
      which join back to `s` and contain no separator. */
  function Split(s: string, d: char): (parts: seq<string>)
    ensures |parts| >= 1
    ensures forall k :: 0 <= k < |parts| ==> d !in parts[k]
    ensures Join(parts, [d]) == s
    decreases |s|
  {
    if |s| == 0 then [""]
    else if s[0] == d then
      var rest := Split(s[1..], d);
      SplitAtSeparator(s, d, rest);
      [""] + rest
    else
      var rest := Split(s[1..], d);
      SplitAtChar(s, d, rest);
      [[s[0]] + rest[0]] + rest[1..]
  }

  lemma SplitAtSeparator(s: string, d: char, rest: seq<string>)
    requires |s| > 0 && s[0] == d && |rest| >= 1 && Join(rest, [d]) == s[1..]
    ensures Join([""] + rest, [d]) == s
  {
    JoinCons("", rest, [d]);
    assert s == [d] + s[1..];
  }

  lemma SplitAtChar(s: string, d: char, rest: seq<string>)
    requires |s| > 0 && s[0] != d && |rest| >= 1 && Join(rest, [d]) == s[1..]
    requires d !in rest[0]
    ensures d !in [s[0]] + rest[0]
    ensures Join([[s[0]] + rest[0]] + rest[1..], [d]) == s
  {
    var c, x := [s[0]], rest[0];
    assert s == c + s[1..];
    if |rest| == 1 {
      assert [[s[0]] + rest[0]] + rest[1..] == [c + x];
    } else {
      var tail := rest[1..];
      assert rest == [x] + tail;
      JoinCons(x, tail, [d]);
      JoinCons(c + x, tail, [d]);
      Assoc4(c, x, [d], Join(tail, [d]));
    }
  }

  lemma Assoc4(a: string, b: string, c: string, d: string)
    ensures a + b + c + d == a + (b + c + d)
  {
  }

  lemma {:induction false} SplitNoSeparator(a: string, d: char)
    requires d !in a
    ensures Split(a, d) == [a]
    decreases |a|
  {
    if |a| > 0 {
      assert d !in a[1..];
      SplitNoSeparator(a[1..], d);
      assert [a[0]] + a[1..] == a;
    }
  }

  lemma {:induction false} SplitAfterPiece(a: string, d: char, b: string)
    requires d !in a
    ensures Split(a + [d] + b, d) == [a] + Split(b, d)
    decreases |a|
  {
    if |a| == 0 {
      assert a + [d] + b == [d] + b;
      assert ([d] + b)[1..] == b;
    } else {
      assert (a + [d] + b)[1..] == a[1..] + [d] + b;
      assert d !in a[1..];
      SplitAfterPiece(a[1..], d, b);
      assert [a[0]] + a[1..] == a;
    }
  }

  /** Splitting a join on a separator that no piece contains gives the pieces back. */
  lemma {:induction false} SplitJoin(xs: seq<string>, d: char)
    requires |xs| >= 1
    requires forall k :: 0 <= k < |xs| ==> d !in xs[k]
    ensures Split(Join(xs, [d]), d) == xs
    decreases |xs|
  {
    if |xs| == 1 {
      SplitNoSeparator(xs[0], d);
    } else {
      SplitJoin(xs[1..], d);
      SplitAfterPiece(xs[0], d, Join(xs[1..], [d]));
      assert [xs[0]] + xs[1..] == xs;
    }
  }

  /** The characters Python's `str.isspace` accepts, which `strip` removes. */
  predicate IsSpace(c: char) {
    || c == ' ' || c == '\t' || c == '\n' || c == '\r'
    || c == '\U{000B}' || c == '\U{000C}'
    || ('\U{001C}' <= c <= '\U{001F}')
    || c == '\U{0085}' || c == '\U{00A0}' || c == '\U{1680}'
    || ('\U{2000}' <= c <= '\U{200A}')
    || c == '\U{2028}' || c == '\U{2029}' || c == '\U{202F}'
    || c == '\U{205F}' || c == '\U{3000}'
  }

  function LeadingSpace(s: string): (n: nat)
    ensures n <= |s|
    ensures forall k :: 0 <= k < n ==> IsSpace(s[k])
    ensures n < |s| ==> !IsSpace(s[n])
    decreases |s|
  {
    if |s| == 0 || !IsSpace(s[0]) then 0 else 1 + LeadingSpace(s[1..])
  }

  function TrailingSpace(s: string): (n: nat)
    ensures n <= |s|
    ensures forall k :: |s| - n <= k < |s| ==> IsSpace(s[k])
    ensures n < |s| ==> !IsSpace(s[|s| - n - 1])
    decreases |s|
  {
    if |s| == 0 || !IsSpace(s[|s| - 1]) then 0 else 1 + TrailingSpace(s[..|s| - 1])
  }

  /** `s.strip()`: `s` with its leading and trailing whitespace removed. */
  function Strip(s: string): (r: string)
    ensures |r| <= |s|
    ensures r == [] <==> forall k :: 0 <= k < |s| ==> IsSpace(s[k])
    ensures r != [] ==> !IsSpace(r[0]) && !IsSpace(r[|r| - 1])
    ensures exists i :: StrippedAt(s, r, i)
  {
    var a := LeadingSpace(s);
    var t := s[a..];
    var b := TrailingSpace(t);
    var r := t[..|t| - b];
    assert r == s[a..a + |r|];
    assert StrippedAt(s, r, a);
    r
  }

  /** `r` is `s` less `i` leading and some trailing whitespace characters. */
  predicate StrippedAt(s: string, r: string, i: int) {
    && 0 <= i <= |s| - |r|
    && r == s[i..i + |r|]
    && (forall k :: 0 <= k < i ==> IsSpace(s[k]))
    && (forall k :: i + |r| <= k < |s| ==> IsSpace(s[k]))
  }

  /** Python truthiness of `s.strip()`. */
  predicate IsBlank(s: string) {
    forall k :: 0 <= k < |s| ==> IsSpace(s[k])
  }

  lemma StripOfNonSpace(s: string)
    requires forall k :: 0 <= k < |s| ==> !IsSpace(s[k])
    ensures Strip(s) == s
  {
    assert LeadingSpace(s) == 0;
    assert TrailingSpace(s) == 0;
  }

  /** `c * n`: `n` copies of `c`, nothing when `n` is zero or negative. */
  function Repeat(c: char, n: int): (r: string)
    ensures |r| == if n <= 0 then 0 else n
    ensures forall k :: 0 <= k < |r| ==> r[k] == c
    decreases n
  {
    if n <= 0 then "" else [c] + Repeat(c, n - 1)
  }

  /** `s.replace(pat, rep)`: every occurrence of `pat`, scanned left to right
      without overlap, becomes `rep`. */
  function ReplaceAll(s: string, pat: string, rep: string): (r: string)
    requires |pat| > 0
    ensures !Contains(s, pat) ==> r == s
    ensures |rep| <= |pat| ==> |r| <= |s|
    decreases |s|
  {
    if |s| == 0 then ""
    else if StartsWith(s, pat) then
      assert OccursAt(s, pat, 0);
      rep + ReplaceAll(s[|pat|..], pat, rep)
    else
      assert !Contains(s, pat) ==> !Contains(s[1..], pat) by {
        if Contains(s[1..], pat) {
          var t := s[1..];
          var i :| 0 <= i <= |t| - |pat| && OccursAt(t, pat, i);
          assert t[i..i + |pat|] == pat;
          assert s[i + 1..i + 1 + |pat|] == t[i..i + |pat|];
          assert OccursAt(s, pat, i + 1);
        }
      }
      assert [s[0]] + s[1..] == s;
      [s[0]] + ReplaceAll(s[1..], pat, rep)
  }

  lemma ReplaceAtStart(pat: string, rest: string, rep: string)
    requires |pat| > 0
    ensures ReplaceAll(pat + rest, pat, rep) == rep + ReplaceAll(rest, pat, rep)
  {
    assert (pat + rest)[..|pat|] == pat;
    assert (pat + rest)[|pat|..] == rest;
  }

  function LowerChar(c: char): char {
    if 'A' <= c <= 'Z' then (c as int + 32) as char else c
  }

  /** `s.lower()` on ASCII letters; every other character is kept. */
  function Lower(s: string): (r: string)
    ensures |r| == |s|
    ensures forall k :: 0 <= k < |s| ==> r[k] == LowerChar(s[k])
    ensures forall k :: 0 <= k < |r| ==> !('A' <= r[k] <= 'Z')
    ensures (forall k :: 0 <= k < |s| ==> !('A' <= s[k] <= 'Z')) ==> r == s
  {
    seq(|s|, k requires 0 <= k < |s| => LowerChar(s[k]))
  }

  predicate IsDigit(c: char) {
    '0' <= c <= '9'
  }

  function DigitValue(c: char): nat
    requires IsDigit(c)
  {
    c as int - '0' as int
  }

  function DigitChar(d: nat): (c: char)
    requires d < 10
    ensures IsDigit(c) && DigitValue(c) == d
  {
    ('0' as int + d) as char
  }

  /** `str(n)` for a natural number: its decimal digits, no leading zeros. */
  function NatToString(n: nat): (r: string)
    ensures |r| > 0
    ensures forall k :: 0 <= k < |r| ==> IsDigit(r[k])
    ensures |r| > 1 ==> r[0] != '0'
    decreases n
  {
    if n < 10 then [DigitChar(n)] else NatToString(n / 10) + [DigitChar(n % 10)]
  }

  /** The digit text `int()` accepts: digits, with single underscores between digits. */
  predicate WellFormedDigits(s: string) {
    && |s| > 0
    && IsDigit(s[0])
    && IsDigit(s[|s| - 1])
    && (forall k :: 0 <= k < |s| ==> IsDigit(s[k]) || s[k] == '_')
    && (forall k :: 0 <= k < |s| - 1 ==> s[k] == '_' ==> s[k + 1] != '_')
  }

  /** The base-10 value of a digit text, underscores ignored. */
  function DigitsValue(s: string): nat
    requires forall k :: 0 <= k < |s| ==> IsDigit(s[k]) || s[k] == '_'
    decreases |s|
  {
    if |s| == 0 then 0
    else if s[|s| - 1] == '_' then DigitsValue(s[..|s| - 1])
    else 10 * DigitsValue(s[..|s| - 1]) + DigitValue(s[|s| - 1])
  }

  /** The number of digits in a text, underscores not counted. */
  function DigitCount(s: string): (n: nat)
    ensures n <= |s|
    decreases |s|
  {
    if |s| == 0 then 0 else DigitCount(s[..|s| - 1]) + if IsDigit(s[|s| - 1]) then 1 else 0
  }

  /** The whitespace `int()` skips around a number. CPython first turns every
      non-ASCII character `str.isspace` accepts into a space and then skips
      ASCII tab, newline, vertical tab, form feed, carriage return and space,
      so the ASCII separators U+001C..U+001F, which `strip` removes, are not
      skipped. */
  predicate IsIntSpace(c: char) {
    IsSpace(c) && !('\U{001C}' <= c <= '\U{001F}')
  }

  function LeadingIntSpace(s: string): (n: nat)
    ensures n <= |s|
    ensures forall k :: 0 <= k < n ==> IsIntSpace(s[k])
    ensures n < |s| ==> !IsIntSpace(s[n])
    decreases |s|
  {
    if |s| == 0 || !IsIntSpace(s[0]) then 0 else 1 + LeadingIntSpace(s[1..])
  }

  /** Length of the longest prefix made of digits and underscores. */
  function DigitRun(s: string): (n: nat)
    ensures n <= |s|
    ensures forall k :: 0 <= k < n ==> IsDigit(s[k]) || s[k] == '_'
    ensures n < |s| ==> !IsDigit(s[n]) && s[n] != '_'
    decreases |s|
  {
    if |s| == 0 || !(IsDigit(s[0]) || s[0] == '_') then 0 else 1 + DigitRun(s[1..])
  }

  /** CPython's default `sys.get_int_max_str_digits()`, from version 3.11 on. */
  const IntMaxStrDigits := 4300

  /** What `int(s)` makes of a string: its value, or one of its two
      `ValueError`s. */
  datatype IntResult = Int(value: int) | NotALiteral | TooManyDigits(digits: nat)

  /** `int(s)` in base 10: whitespace, an optional sign, digits with single
      underscores between them, whitespace; a literal with more digits than
      the limit is refused. */
  function ParseInt(s: string): (r: IntResult)
    ensures !r.NotALiteral? ==> exists k :: 0 <= k < |s| && IsDigit(s[k])
    ensures r.TooManyDigits? ==> r.digits > IntMaxStrDigits
  {
    var i := LeadingIntSpace(s);
    var t := s[i..];
    var signed := |t| > 0 && (t[0] == '+' || t[0] == '-');
    var u := if signed then t[1..] else t;
    var n := DigitRun(u);
    var digits := u[..n];
    if !WellFormedDigits(digits) || !(forall k :: n <= k < |u| ==> IsIntSpace(u[k])) then NotALiteral
    else
      assert exists k :: 0 <= k < |s| && IsDigit(s[k]) by {
        if signed { assert s[i + 1] == digits[0]; } else { assert s[i] == digits[0]; }
      }
      if DigitCount(digits) > IntMaxStrDigits then TooManyDigits(DigitCount(digits))
      else
        var v: int := DigitsValue(digits);
        Int(if signed && t[0] == '-' then -v else v)
  }

  /** The message of `int(s)`'s `ValueError` for a string that is no literal:
      `%.200R` writes the `repr` of `s` cut to 200 characters. */
  function InvalidLiteral(s: string): string {
    InvalidLiteralPrefix + Truncate(Repr(s), 200)
  }

  const InvalidLiteralPrefix := "invalid literal for int() with base 10: "

  /** The message of `int()`'s `ValueError` for a literal of too many digits. */
  function DigitLimitMessage(digits: nat): string {
    "Exceeds the limit (4300 digits) for integer string conversion: value has "
      + NatToString(digits) + " digits; use sys.set_int_max_str_digits() to increase the limit"
  }

  /** `sys.maxsize` on a 64-bit build. */
  const MaxSize := 0x7fff_ffff_ffff_ffff

  /** The counts `c * n` accepts: the range of `Py_ssize_t`. Any other count
      raises `OverflowError`. */
  predicate FitsIndex(n: int) {
    -MaxSize - 1 <= n <= MaxSize
  }

  const IndexOverflow := "cannot fit 'int' into an index-sized integer"

  lemma {:induction false} DigitsValueOfNatToString(n: nat)
    ensures DigitsValue(NatToString(n)) == n
    decreases n
  {
    var r := NatToString(n);
    if n < 10 {
      assert r[..0] == [];
    } else {
      DigitsValueOfNatToString(n / 10);
      assert r[..|r| - 1] == NatToString(n / 10);
    }
  }

  lemma {:induction false} DigitCountOfDigits(s: string)
    requires forall k :: 0 <= k < |s| ==> IsDigit(s[k])
    ensures DigitCount(s) == |s|
    decreases |s|
  {
    if |s| > 0 {
      DigitCountOfDigits(s[..|s| - 1]);
    }
  }

  function Pow10(k: nat): (p: nat)
    ensures p >= 1
  {
    if k == 0 then 1 else 10 * Pow10(k - 1)
  }

  /** A number below `10^k` has at most `k` digits. */
  lemma {:induction false} NatToStringLength(n: nat, k: nat)
    requires 1 <= k && n < Pow10(k)
    ensures |NatToString(n)| <= k
    decreases k
  {
    if n >= 10 {
      assert Pow10(1) == 10;
      assert Pow10(k) == 10 * Pow10(k - 1);
      assert n / 10 < Pow10(k - 1);
      NatToStringLength(n / 10, k - 1);
    }
  }

  /** Every number of `Py_ssize_t` has far fewer digits than `int()` allows. */
  lemma IndexDigits(n: nat)
    requires n <= MaxSize
    ensures |NatToString(n)| <= 19 < IntMaxStrDigits
  {
    assert Pow10(4) == 10_000;
    assert Pow10(8) == 100_000_000;
    assert Pow10(12) == 1_000_000_000_000;
    assert Pow10(16) == 10_000_000_000_000_000;
    assert MaxSize < Pow10(19);
    NatToStringLength(n, 19);
  }

  /** `int()` reads a non-empty run of digits as its value, as long as it is
      within the digit limit, and refuses it otherwise. */
  lemma ParseIntOfDigits(r: string)
    requires |r| > 0 && forall k :: 0 <= k < |r| ==> IsDigit(r[k])
    ensures ParseInt(r) == if |r| <= IntMaxStrDigits then Int(DigitsValue(r)) else TooManyDigits(|r|)
  {
    assert LeadingIntSpace(r) == 0;
    assert r[0..] == r;
    assert !(r[0] == '+' || r[0] == '-');
    DigitRunOfDigits(r);
    assert r[..|r|] == r;
    assert WellFormedDigits(r);
    DigitCountOfDigits(r);
  }

  lemma {:induction false} DigitRunOfDigits(s: string)
    requires forall k :: 0 <= k < |s| ==> IsDigit(s[k])
    ensures DigitRun(s) == |s|
    decreases |s|
  {
    if |s| > 0 {
      DigitRunOfDigits(s[1..]);
    }
  }

  /** `int(str(n)) == n` while `str(n)` is within the digit limit. */
  lemma ParseIntOfNatToString(n: nat)
    requires |NatToString(n)| <= IntMaxStrDigits
    ensures ParseInt(NatToString(n)) == Int(n)
  {
    ParseIntOfDigits(NatToString(n));
    DigitsValueOfNatToString(n);
  }

  /** `int()` refuses `str(n)` once it has more digits than the limit, naming
      the number of digits. */
  lemma ParseIntOfLongNumber(n: nat)
    requires |NatToString(n)| > IntMaxStrDigits
    ensures ParseInt(NatToString(n)) == TooManyDigits(|NatToString(n)|)
  {
    ParseIntOfDigits(NatToString(n));
  }

  /** The information separator U+001C is whitespace to `strip` but not to
      `int()`: in front of a number it makes the text no literal. */
  lemma SeparatorIsNoIntSpace(n: nat)
    ensures IsSpace('\U{001C}') && !IsIntSpace('\U{001C}')
    ensures ParseInt("\U{001C}" + NatToString(n)) == NotALiteral
  {
    var s := "\U{001C}" + NatToString(n);
    assert LeadingIntSpace(s) == 0;
    assert s[0..] == s;
    assert DigitRun(s) == 0;
  }

  /** Non-ASCII whitespace such as U+00A0 around a number is skipped. */
  lemma NoBreakSpaceIsSkipped(n: nat)
    requires |NatToString(n)| <= IntMaxStrDigits
    ensures ParseInt("\U{00A0}" + NatToString(n) + "\U{00A0}") == Int(n)
  {
    var r := NatToString(n);
    var s := "\U{00A0}" + r + "\U{00A0}";
    assert LeadingIntSpace(s) == 1 by {
      assert s[1..][0] == r[0];
    }
    var t := s[1..];
    assert t == r + "\U{00A0}";
    DigitRunBeforeSpace(r, "\U{00A0}");
    assert t[..|r|] == r;
    DigitsValueOfNatToString(n);
  }

  lemma {:induction false} DigitRunBeforeSpace(r: string, tail: string)
    requires forall k :: 0 <= k < |r| ==> IsDigit(r[k])
    requires |tail| > 0 && IsSpace(tail[0])
    ensures DigitRun(r + tail) == |r|
    decreases |r|
  {
    if |r| > 0 {
      assert (r + tail)[1..] == r[1..] + tail;
      DigitRunBeforeSpace(r[1..], tail);
    }
  }

  // ---------------------------------------------------------------------------
  // `repr` of a string

  /** What `repr` writes unescaped: every character but the C0 and C1
      controls, DEL, and the Unicode space, line and paragraph separators
      other than the plain space. */
  predicate IsPrintable(c: char) {
    ' ' <= c && !('\U{007F}' <= c <= '\U{009F}') && (c == ' ' || !IsSpace(c))
  }

  const HexDigits := "0123456789abcdef"

  /** The last `width` lower-case hexadecimal digits of `v`. */
  function Hex(v: nat, width: nat): (r: string)
    ensures |r| == width
    decreases width
  {
    if width == 0 then "" else Hex(v / 16, width - 1) + [HexDigits[v % 16]]
  }

  /** One character of `repr`'s body when `quote` delimits it: the quote and
      the backslash get a backslash, tab, newline and carriage return their
      letters, and other unprintable characters a hexadecimal escape. */
  function ReprChar(c: char, quote: char): (r: string)
    ensures |r| == 1 <==> c != quote && c != '\\' && IsPrintable(c)
    ensures |r| == 1 ==> r[0] == c
    ensures |r| > 1 ==> r[0] == '\\'
  {
    if c == quote || c == '\\' then ['\\', c]
    else if c == '\t' then "\\t"
    else if c == '\n' then "\\n"
    else if c == '\r' then "\\r"
    else if IsPrintable(c) then [c]
    else if c as int < 0x100 then "\\x" + Hex(c as int, 2)
    else if c as int < 0x10000 then "\\u" + Hex(c as int, 4)
    else "\\U" + Hex(c as int, 8)
  }

  function ReprBody(s: string, quote: char): (r: string)
    ensures |r| >= |s|
    decreases |s|
  {
    if |s| == 0 then "" else ReprBody(s[..|s| - 1], quote) + ReprChar(s[|s| - 1], quote)
  }

  /** The quote `repr` delimits a string with. */
  function ReprQuote(s: string): (q: char)
    ensures q == '"' <==> '\'' in s && '"' !in s
  {
    if '\'' in s && '"' !in s then '"' else '\''
  }

  /** `repr(s)`: the body between quotes, single ones unless `s` holds a single
      quote and no double quote. */
  function Repr(s: string): (r: string)
    ensures |r| >= |s| + 2
    ensures r[0] == r[|r| - 1] == ReprQuote(s)
  {
    [ReprQuote(s)] + ReprBody(s, ReprQuote(s)) + [ReprQuote(s)]
  }

  /** `s[:n]` for a non-negative `n`. */
  function Truncate(s: string, n: nat): (r: string)
    ensures |r| == Min(n, |s|)
    ensures forall k :: 0 <= k < |r| ==> r[k] == s[k]
  {
    s[..Min(n, |s|)]
  }

  /** A body of printable characters other than the quote and the backslash
      is written as it is. */
  lemma {:induction false} ReprBodyPlain(s: string, quote: char)
    requires forall k :: 0 <= k < |s| ==> s[k] != quote && s[k] != '\\' && IsPrintable(s[k])
    ensures ReprBody(s, quote) == s
    decreases |s|
  {
    if |s| > 0 {
      ReprBodyPlain(s[..|s| - 1], quote);
      assert s[..|s| - 1] + [s[|s| - 1]] == s;
    }
  }

  /** A string of printable characters without quote or backslash has the
      `repr` `'s'`. */
  lemma ReprPlain(s: string)
    requires forall k :: 0 <= k < |s| ==> s[k] != '\'' && s[k] != '\\' && IsPrintable(s[k])
    ensures Repr(s) == "'" + s + "'"
  {
    assert '\'' !in s;
    ReprBodyPlain(s, '\'');
  }

  lemma {:induction false} ReprBodyAppend(a: string, b: string, quote: char)
    ensures ReprBody(a + b, quote) == ReprBody(a, quote) + ReprBody(b, quote)
    decreases |b|
  {
    if |b| == 0 {
      assert a + b == a;
    } else {
      var init, last := b[..|b| - 1], b[|b| - 1];
      assert (a + b)[..|a + b| - 1] == a + init;
      assert (a + b)[|a + b| - 1] == last;
      ReprBodyAppend(a, init, quote);
      ConcatAssoc(ReprBody(a, quote), ReprBody(init, quote), ReprChar(last, quote));
    }
  }

  lemma ConcatAssoc(x: string, y: string, z: string)
    ensures (x + y) + z == x + (y + z)
  {
  }

  /** Between plain text, a tab is written as backslash and `t`. */
  lemma ReprOfTab(a: string, b: string)
    requires forall k :: 0 <= k < |a| ==> a[k] != '\'' && a[k] != '\\' && IsPrintable(a[k])
    requires forall k :: 0 <= k < |b| ==> b[k] != '\'' && b[k] != '\\' && IsPrintable(b[k])
    ensures Repr(a + "\t" + b) == "'" + a + "\\t" + b + "'"
  {
    var s := a + "\t" + b;
    TabbedHasNoQuote(a, b);
    TabbedBody(a, b);
    assert Repr(s) == ['\''] + (a + "\\t" + b) + ['\''];
  }

  lemma TabbedHasNoQuote(a: string, b: string)
    requires forall k :: 0 <= k < |a| ==> a[k] != '\''
    requires forall k :: 0 <= k < |b| ==> b[k] != '\''
    ensures '\'' !in a + "\t" + b
  {
    var s := a + "\t" + b;
    forall k | 0 <= k < |s|
      ensures s[k] != '\''
    {
      if k < |a| { assert s[k] == a[k]; } else if k > |a| { assert s[k] == b[k - |a| - 1]; }
    }
  }

  lemma TabbedBody(a: string, b: string)
    requires forall k :: 0 <= k < |a| ==> a[k] != '\'' && a[k] != '\\' && IsPrintable(a[k])
    requires forall k :: 0 <= k < |b| ==> b[k] != '\'' && b[k] != '\\' && IsPrintable(b[k])
    ensures ReprBody(a + "\t" + b, '\'') == a + "\\t" + b
  {
    ReprBodyPlain(a, '\'');
    ReprBodyPlain(b, '\'');
    ReprBodyOfTab();
    ReprBodyAppend(a, "\t", '\'');
    ReprBodyAppend(a + "\t", b, '\'');
  }

  lemma ReprBodyOfTab()
    ensures ReprBody("\t", '\'') == "\\t"
  {
    assert "\t"[..0] == "";
  }

  /** A `repr` longer than 200 characters loses its end, the closing quote
      among it. */
  lemma LongReprIsCut(s: string)
    requires |s| >= 199
    ensures |Truncate(Repr(s), 200)| == 200
    ensures InvalidLiteral(s)[|InvalidLiteral(s)| - 1] == Repr(s)[199]
  {
  }
}
