/** The string operations of Python's built-in `str` and `float` that the
    aspect-ratio reader relies on: `strip()`, `split(sep)`, `startswith`,
    and the decimal subset of `float(text)`. */
module Text {
  import opened Wrappers

  /** Python's `str.isspace()`: the characters `strip()` removes. */
  predicate IsSpace(c: char) {
    c == ' ' || c == '\t' || c == '\n' || c == '\r' || c == '\U{0B}' || c == '\U{0C}' ||
    ('\U{1C}' <= c <= '\U{1F}') || c == '\U{85}' || c == '\U{A0}' || c == '\U{1680}' ||
    ('\U{2000}' <= c <= '\U{200A}') || c == '\U{2028}' || c == '\U{2029}' ||
    c == '\U{202F}' || c == '\U{205F}' || c == '\U{3000}'
  }

  predicate AllSpace(s: string) {
    forall i :: 0 <= i < |s| ==> IsSpace(s[i])
  }

  predicate StartsWith(s: string, c: char) {
    |s| > 0 && s[0] == c
  }

  /** How many whitespace characters `s` starts with: all of them are
      whitespace, and the character after them is not. */
  function LeadingSpace(s: string): (k: nat)
    ensures k <= |s| && forall i :: 0 <= i < k ==> IsSpace(s[i])
    ensures k == |s| || !IsSpace(s[k])
  {
    if s != [] && IsSpace(s[0]) then
      var k := LeadingSpace(s[1..]);
      assert forall i :: 1 <= i < k + 1 ==> s[i] == s[1..][i - 1];
      k + 1
    else 0
  }

  /** Where the whitespace `s` ends with begins: everything from there on is
      whitespace, and the character before it is not. */
  function TrailingSpace(s: string): (j: nat)
    ensures j <= |s| && forall i :: j <= i < |s| ==> IsSpace(s[i])
    ensures j == 0 || !IsSpace(s[j - 1])
  {
    if s != [] && IsSpace(s[|s| - 1]) then
      var j := TrailingSpace(s[..|s| - 1]);
      assert forall i :: j <= i < |s| - 1 ==> s[i] == s[..|s| - 1][i];
      j
    else |s|
  }

  /** The ensures of `LeadingSpace` pin its value down. */
  lemma LeadingSpaceUnique(s: string, k: nat)
    requires k <= |s| && forall i :: 0 <= i < k ==> IsSpace(s[i])
    requires k == |s| || !IsSpace(s[k])
    ensures LeadingSpace(s) == k
  {
  }

  /** The ensures of `TrailingSpace` pin its value down. */
  lemma TrailingSpaceUnique(s: string, j: nat)
    requires j <= |s| && forall i :: j <= i < |s| ==> IsSpace(s[i])
    requires j == 0 || !IsSpace(s[j - 1])
    ensures TrailingSpace(s) == j
  {
  }

  /** Python's `s.lstrip()`: the leading whitespace dropped. */
  function LStrip(s: string): (r: string)
    ensures r == [] || !IsSpace(r[0])
  {
    s[LeadingSpace(s)..]
  }

  /** Python's `s.rstrip()`: the trailing whitespace dropped. */
  function RStrip(s: string): (r: string)
    ensures r == [] || !IsSpace(r[|r| - 1])
  {
    s[..TrailingSpace(s)]
  }

  /** Python's `s.strip()`. */
  function Strip(s: string): (r: string)
    ensures r == [] || (!IsSpace(r[0]) && !IsSpace(r[|r| - 1]))
  {
    RStrip(LStrip(s))
  }

  /** `strip()` cuts whitespace off both ends and nothing else. */
  lemma StripSlice(s: string) returns (i: nat, j: nat)
    ensures i <= j <= |s| && Strip(s) == s[i..j] && AllSpace(s[..i]) && AllSpace(s[j..])
  {
    i := LeadingSpace(s);
    var l := s[i..];
    var t := TrailingSpace(l);
    j := i + t;
    assert Strip(s) == l[..t] == s[i..j];
    assert forall k :: 0 <= k < |s| - j ==> s[j..][k] == l[t + k];
  }

  /** How many times `c` occurs in `s`. */
  function Count(s: string, c: char): nat {
    if s == [] then 0 else (if s[0] == c then 1 else 0) + Count(s[1..], c)
  }

  /** The inverse of `Split`: the parts glued back with the separator. */
  function Join(parts: seq<string>, sep: char): string
    requires |parts| >= 1
  {
    if |parts| == 1 then parts[0] else parts[0] + [sep] + Join(parts[1..], sep)
  }

  /** Python's `s.split(sep)` for a one-character separator: never empty,
      no part holds the separator, and the first part is the text before the
      first separator (`SplitJoin` shows that joining the parts gives `s`). */
  function Split(s: string, sep: char): (r: seq<string>)
    ensures |r| >= 1
    ensures forall k :: 0 <= k < |r| ==> sep !in r[k]
    ensures r[0] <= s && (|r[0]| < |s| ==> s[|r[0]|] == sep)
  {
    if s == [] then [[]]
    else
      var rest := Split(s[1..], sep);
      if s[0] == sep then [[]] + rest
      else [[s[0]] + rest[0]] + rest[1..]
  }

  /** Python's `text.split('#')[0]` when `'#' in text`, `text` otherwise:
      the text up to the first `'#'`. */
  function BeforeHash(text: string): (r: string)
    ensures r <= text && '#' !in r
    ensures |r| < |text| ==> text[|r|] == '#'
  {
    if '#' in text then Split(text, '#')[0] else text
  }

  predicate IsDigit(c: char) {
    '0' <= c <= '9'
  }

  predicate AllDigits(s: string) {
    forall i :: 0 <= i < |s| ==> IsDigit(s[i])
  }

  /** The value of a string of decimal digits, most significant first. */
  function DigitsValue(s: string): nat
    requires AllDigits(s)
  {
    if s == [] then 0 else 10 * DigitsValue(s[..|s| - 1]) + (s[|s| - 1] - '0') as nat
  }

  function Pow10(n: nat): (r: nat)
    ensures r >= 1
  {
    if n == 0 then 1 else 10 * Pow10(n - 1)
  }

  /** The number written `whole.fraction`. */
  function DecimalValue(whole: string, fraction: string): real
    requires AllDigits(whole) && AllDigits(fraction)
  {
    DigitsValue(whole) as real + DigitsValue(fraction) as real / Pow10(|fraction|) as real
  }

  /** Unsigned decimal: `digits`, `digits.`, `.digits` or `digits.digits`. */
  function ParseUnsigned(t: string): (r: Option<real>)
    ensures r.Some? ==> r.value >= 0.0
  {
    var parts := Split(t, '.');
    if |parts| == 1 then
      if t != [] && AllDigits(t) then Some(DigitsValue(t) as real) else None
    else if |parts| == 2 && parts[0] + parts[1] != [] && AllDigits(parts[0]) && AllDigits(parts[1]) then
      Some(DecimalValue(parts[0], parts[1]))
    else None
  }

  /** The part of Python's `float(text)` modelled here: surrounding whitespace
      is ignored, then an optional sign and an unsigned decimal. Blank text is
      rejected, and only a `-` sign gives a negative number. */
  function ParseDecimal(text: string): (r: Option<real>)
    ensures r.Some? ==> Strip(text) != []
    ensures r.Some? && r.value < 0.0 ==> Strip(text)[0] == '-'
  {
    ParseStripped(Strip(text))
  }

  /** `float` after its surrounding whitespace is gone. */
  function ParseStripped(t: string): (r: Option<real>)
    ensures r.Some? ==> t != []
    ensures r.Some? && r.value < 0.0 ==> t[0] == '-'
  {
    if t != [] && (t[0] == '+' || t[0] == '-') then
      match ParseUnsigned(t[1..])
      case None => None
      case Some(v) => Some(if t[0] == '-' then -v else v)
    else ParseUnsigned(t)
  }

  /** The decimal digits of `n`, as Python's `str(n)` writes them. */
  function NatToString(n: nat): (r: string)
    ensures r != [] && AllDigits(r)
  {
    var d := ['0' + (n % 10) as char];
    if n < 10 then d else NatToString(n / 10) + d
  }

  // ---------------------------------------------------------------------------
  // Properties of the string operations

  /** Joining the parts of a split with the separator gives back the text. */
  lemma {:induction false} SplitJoin(s: string, sep: char)
    ensures Join(Split(s, sep), sep) == s
  {
    if s != [] {
      SplitJoin(s[1..], sep);
      var rest := Split(s[1..], sep);
      if s[0] != sep && |rest| > 1 {
        assert Join(rest, sep) == rest[0] + [sep] + Join(rest[1..], sep);
      }
    }
  }

  /** `split` yields one more part than there are separators. */
  lemma {:induction false} SplitCount(s: string, sep: char)
    ensures |Split(s, sep)| == Count(s, sep) + 1
  {
    if s != [] {
      SplitCount(s[1..], sep);
    }
  }

  lemma {:induction false} CountAppend(a: string, b: string, c: char)
    ensures Count(a + b, c) == Count(a, c) + Count(b, c)
  {
    if a != [] {
      assert (a + b)[0] == a[0] && (a + b)[1..] == a[1..] + b;
      CountAppend(a[1..], b, c);
    } else {
      assert a + b == b;
    }
  }

  lemma {:induction false} CountAllSpace(s: string, c: char)
    requires AllSpace(s) && !IsSpace(c)
    ensures Count(s, c) == 0
  {
    if s != [] {
      CountAllSpace(s[1..], c);
    }
  }

  /** Stripping removes whitespace only, so it keeps every separator. */
  lemma StripKeepsCount(s: string, c: char)
    requires !IsSpace(c)
    ensures Count(Strip(s), c) == Count(s, c)
  {
    var i, j := StripSlice(s);
    CountOutsideSpace(s, i, j, c);
  }

  lemma CountOutsideSpace(s: string, i: nat, j: nat, c: char)
    requires i <= j <= |s| && AllSpace(s[..i]) && AllSpace(s[j..]) && !IsSpace(c)
    ensures Count(s[i..j], c) == Count(s, c)
  {
    var a, m, z := s[..i], s[i..j], s[j..];
    assert s == a + (m + z);
    CountAppend(a, m + z, c);
    CountAppend(m, z, c);
    CountAllSpace(a, c);
    CountAllSpace(z, c);
  }

  /** Whitespace in front of a non-blank text does not stop at the text. */
  lemma LStripBeforeNonSpace(x: string, y: string)
    requires y != [] && !IsSpace(y[0])
    ensures LStrip(x + y) == LStrip(x) + y
  {
    var k := LeadingSpace(x);
    assert forall i :: 0 <= i < |x| ==> (x + y)[i] == x[i];
    if k == |x| {
      assert (x + y)[k] == y[0];
    }
    LeadingSpaceUnique(x + y, k);
    assert (x + y)[k..] == x[k..] + y;
  }

  /** Whitespace after a text that ends non-blank does not reach into it. */
  lemma RStripAfterNonSpace(x: string, y: string)
    requires x != [] && !IsSpace(x[|x| - 1])
    ensures RStrip(x + y) == x + RStrip(y)
  {
    var j := TrailingSpace(y);
    assert forall i :: |x| <= i < |x + y| ==> (x + y)[i] == y[i - |x|];
    assert (x + y)[|x| - 1] == x[|x| - 1];
    TrailingSpaceUnique(x + y, |x| + j);
    assert (x + y)[..|x| + j] == x + y[..j];
  }

  lemma LStripAfterSpace(p: string, x: string)
    requires AllSpace(p)
    ensures LStrip(p + x) == LStrip(x)
  {
    var k := LeadingSpace(x);
    assert forall i :: 0 <= i < |p| ==> (p + x)[i] == p[i];
    assert forall i :: |p| <= i < |p + x| ==> (p + x)[i] == x[i - |p|];
    LeadingSpaceUnique(p + x, |p| + k);
    assert (p + x)[|p| + k..] == x[k..];
  }

  lemma RStripBeforeSpace(x: string, q: string)
    requires AllSpace(q)
    ensures RStrip(x + q) == RStrip(x)
  {
    var j := TrailingSpace(x);
    assert forall i :: 0 <= i < |x| ==> (x + q)[i] == x[i];
    assert forall i :: |x| <= i < |x + q| ==> (x + q)[i] == q[i - |x|];
    TrailingSpaceUnique(x + q, j);
    assert (x + q)[..j] == x[..j];
  }

  /** Trailing whitespace survives a left strip unless everything is blank. */
  lemma LStripBeforeSpace(s: string, q: string)
    requires AllSpace(q)
    ensures LStrip(s + q) == if LStrip(s) == [] then [] else LStrip(s) + q
  {
    var k := LeadingSpace(s);
    assert forall i :: 0 <= i < |s| ==> (s + q)[i] == s[i];
    assert forall i :: |s| <= i < |s + q| ==> (s + q)[i] == q[i - |s|];
    if k < |s| {
      LeadingSpaceUnique(s + q, k);
      assert (s + q)[k..] == s[k..] + q;
    } else {
      LeadingSpaceUnique(s + q, |s + q|);
    }
  }

  /** Stripping a text with a non-blank character in it strips the two sides
      of that character separately. */
  lemma StripAround(pre: string, x: char, post: string)
    requires !IsSpace(x)
    ensures Strip(pre + [x] + post) == LStrip(pre) + [x] + RStrip(post)
  {
    var y := [x] + post;
    assert pre + [x] + post == pre + y;
    LStripBeforeNonSpace(pre, y);
    StripAfterLeft(LStrip(pre), x, post);
  }

  lemma StripAfterLeft(l: string, x: char, post: string)
    requires !IsSpace(x)
    ensures RStrip(l + ([x] + post)) == l + [x] + RStrip(post)
  {
    var lx := l + [x];
    assert l + ([x] + post) == lx + post;
    assert lx[|lx| - 1] == x;
    RStripAfterNonSpace(lx, post);
  }

  /** `strip()` ignores whitespace padding around its argument. */
  lemma StripPadding(p: string, s: string, q: string)
    requires AllSpace(p) && AllSpace(q)
    ensures Strip(p + s + q) == Strip(s)
  {
    assert p + s + q == p + (s + q);
    LStripAfterSpace(p, s + q);
    LStripBeforeSpace(s, q);
    if LStrip(s) != [] {
      RStripBeforeSpace(LStrip(s), q);
    }
  }

  /** Text without a separator is not split. */
  lemma {:induction false} SplitNoSeparator(s: string, sep: char)
    requires sep !in s
    ensures Split(s, sep) == [s]
  {
    if s != [] {
      assert s[0] != sep && [s[0]] + s[1..] == s;
      SplitNoSeparator(s[1..], sep);
    }
  }

  /** The parts `p` with `d` appended to the last one. */
  function ExtendLast(p: seq<string>, d: string): seq<string>
    requires |p| >= 1
  {
    p[..|p| - 1] + [p[|p| - 1] + d]
  }

  /** `a + sep + b` with no separator in `a` or `b` splits into `[a, b]`. */
  lemma {:induction false} SplitAround(a: string, b: string, sep: char)
    requires sep !in a && sep !in b
    ensures Split(a + [sep] + b, sep) == [a, b]
  {
    if a == [] {
      assert a + [sep] + b == [sep] + b;
      assert ([sep] + b)[1..] == b;
      SplitNoSeparator(b, sep);
    } else {
      assert (a + [sep] + b)[0] == a[0] && (a + [sep] + b)[1..] == a[1..] + [sep] + b;
      assert a[0] != sep && [a[0]] + a[1..] == a;
      SplitAround(a[1..], b, sep);
    }
  }

  /** A tail without separators lengthens the last part only. */
  lemma {:induction false} SplitAppend(a: string, d: string, sep: char)
    requires sep !in d
    ensures Split(a + d, sep) == ExtendLast(Split(a, sep), d)
  {
    if a == [] {
      assert a + d == d;
      SplitNoSeparator(d, sep);
    } else {
      var c, rest := a[0], a[1..];
      assert a == [c] + rest && a + d == [c] + (rest + d);
      SplitAppend(rest, d, sep);
      SplitCons(c, rest, sep);
      SplitCons(c, rest + d, sep);
      var p := Split(rest, sep);
      if c == sep {
        ExtendLastEmptyHead(p, d);
      } else {
        ExtendLastJoinedHead([c], p, d);
      }
    }
  }

  /** `split` of a text given as its first character and the rest. */
  lemma SplitCons(c: char, s: string, sep: char)
    ensures var p := Split(s, sep);
            Split([c] + s, sep) == if c == sep then [[]] + p else [[c] + p[0]] + p[1..]
  {
  }

  lemma ExtendLastEmptyHead(p: seq<string>, d: string)
    requires |p| >= 1
    ensures ExtendLast([[]] + p, d) == [[]] + ExtendLast(p, d)
  {
  }

  lemma ExtendLastJoinedHead(x: string, p: seq<string>, d: string)
    requires |p| >= 1
    ensures var e := ExtendLast(p, d);
            ExtendLast([x + p[0]] + p[1..], d) == [x + e[0]] + e[1..]
  {
    var e := ExtendLast(p, d);
    var q := [x + p[0]] + p[1..];
    if |p| == 1 {
      assert e == [p[0] + d] && q == [x + p[0]];
      assert x + (p[0] + d) == x + p[0] + d;
    } else {
      assert e[0] == p[0] && e[1..] == p[1..|p| - 1] + [p[|p| - 1] + d];
      assert q[..|q| - 1] == [x + p[0]] + p[1..|p| - 1];
    }
  }

  /** Whatever follows a `'#'` does not change the text before the first one. */
  lemma {:induction false} BeforeHashIgnoresComment(x: string, c: string)
    ensures BeforeHash(x + "#" + c) == BeforeHash(x)
  {
    var s := x + "#" + c;
    assert s == x + ['#'] + c && s[|x|] == '#';
    SplitFirstAppend(x, c, '#');
    if '#' !in x {
      SplitNoSeparator(x, '#');
    }
  }

  /** The first part of a split stops at the first separator. */
  lemma {:induction false} SplitFirstAppend(x: string, c: string, sep: char)
    ensures Split(x + [sep] + c, sep)[0] == Split(x, sep)[0]
  {
    if x != [] {
      assert (x + [sep] + c)[0] == x[0] && (x + [sep] + c)[1..] == x[1..] + [sep] + c;
      SplitFirstAppend(x[1..], c, sep);
    } else {
      assert x + [sep] + c == [sep] + c;
    }
  }

  /** The value of `NatToString(n)`'s digits is `n`. */
  lemma {:induction false} DigitsValueOfNat(n: nat)
    ensures DigitsValue(NatToString(n)) == n
  {
    var s := NatToString(n);
    if n >= 10 {
      DigitsValueOfNat(n / 10);
      assert s[..|s| - 1] == NatToString(n / 10);
    }
  }

  /** `float(str(n)) == n`: the decimal reader reads back what `NatToString` wrote. */
  lemma ParseDecimalOfNat(n: nat)
    ensures ParseDecimal(NatToString(n)) == Some(n as real)
  {
    var s := NatToString(n);
    assert IsDigit(s[0]) && IsDigit(s[|s| - 1]);
    StripTrimmed(s);
    ParseUnsignedDigits(s);
    DigitsValueOfNat(n);
  }

  /** A text that neither starts nor ends with whitespace is its own `strip()`. */
  lemma StripTrimmed(s: string)
    requires s != [] && !IsSpace(s[0]) && !IsSpace(s[|s| - 1])
    ensures Strip(s) == s
  {
  }

  /** A string of digits reads as the number it writes. */
  lemma ParseUnsignedDigits(s: string)
    requires s != [] && AllDigits(s)
    ensures ParseUnsigned(s) == Some(DigitsValue(s) as real)
  {
    assert '.' !in s by {
      forall i | 0 <= i < |s| ensures s[i] != '.' {
        assert IsDigit(s[i]);
      }
    }
    SplitNoSeparator(s, '.');
  }

  /** `float` reads a number written with a point, `whole.fraction` (either
      side may be empty, not both), as `whole` plus `fraction` divided by the
      power of ten of its length: `1.5` is 3/2, `.75` is 3/4. */
  lemma ParseDecimalOfDecimal(s: string, k: nat)
    requires k < |s| && s[k] == '.' && |s| >= 2
    requires AllDigits(s[..k]) && AllDigits(s[k + 1..])
    ensures ParseDecimal(s) == Some(DecimalValue(s[..k], s[k + 1..]))
  {
    PointTextEnds(s, k);
    ParseDecimalUnsigned(s);
    ParseUnsignedAt(s, k);
  }

  /** The unsigned reading of a text with its only point at index `k`. */
  lemma ParseUnsignedAt(s: string, k: nat)
    requires k < |s| && s[k] == '.' && |s| >= 2
    requires AllDigits(s[..k]) && AllDigits(s[k + 1..])
    ensures ParseUnsigned(s) == Some(DecimalValue(s[..k], s[k + 1..]))
  {
    var a, b := s[..k], s[k + 1..];
    assert s == a + ['.'] + b;
    ParseUnsignedPoint(a, b);
  }

  /** A number written with a point starts and ends with a digit or the point. */
  lemma PointTextEnds(s: string, k: nat)
    requires k < |s| && s[k] == '.'
    requires AllDigits(s[..k]) && AllDigits(s[k + 1..])
    ensures IsDigit(s[0]) || s[0] == '.'
    ensures IsDigit(s[|s| - 1]) || s[|s| - 1] == '.'
  {
    if k > 0 {
      assert s[0] == s[..k][0];
    }
    if k < |s| - 1 {
      assert s[|s| - 1] == s[k + 1..][|s| - k - 2];
    }
  }

  /** A text that starts with a digit or a point and ends with a non-space
      character is read without a sign. */
  lemma ParseDecimalUnsigned(s: string)
    requires s != [] && (IsDigit(s[0]) || s[0] == '.') && !IsSpace(s[|s| - 1])
    ensures ParseDecimal(s) == ParseUnsigned(s)
  {
    StripTrimmed(s);
  }

  /** The unsigned reading of `a.b` for digit strings `a` and `b`. */
  lemma ParseUnsignedPoint(a: string, b: string)
    requires AllDigits(a) && AllDigits(b) && a + b != []
    ensures ParseUnsigned(a + ['.'] + b) == Some(DecimalValue(a, b))
  {
    NoDotInDigits(a);
    NoDotInDigits(b);
    SplitAround(a, b, '.');
  }

  lemma NoDotInDigits(s: string)
    requires AllDigits(s)
    ensures '.' !in s
  {
    forall i | 0 <= i < |s| ensures s[i] != '.' {
      assert IsDigit(s[i]);
    }
  }

  /** A `-` in front of an unsigned number negates it, as in `-1.5`. */
  lemma ParseDecimalNegative(m: string)
    requires m != [] && m[0] == '-' && !IsSpace(m[|m| - 1]) && ParseUnsigned(m[1..]).Some?
    ensures ParseDecimal(m) == Some(-ParseUnsigned(m[1..]).value)
  {
    StripTrimmed(m);
  }

  /** `float` ignores whitespace around the number. */
  lemma ParseDecimalPadding(p: string, s: string, q: string)
    requires AllSpace(p) && AllSpace(q)
    ensures ParseDecimal(p + s + q) == ParseDecimal(s)
  {
    StripPadding(p, s, q);
  }
}
